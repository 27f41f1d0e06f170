/** Where mdb_page_split cuts a page. */
module SplitPoint {

  function Sum(xs: seq<nat>): nat {
    if xs == [] then 0 else xs[0] + Sum(xs[1..])
  }

  lemma {:induction false} SumConcat(a: seq<nat>, b: seq<nat>)
    ensures Sum(a + b) == Sum(a) + Sum(b)
    decreases a
  {
    if a == [] {
      assert a + b == b;
    } else {
      assert (a + b)[1..] == a[1..] + b;
      SumConcat(a[1..], b);
    }
  }

  lemma SumCut(xs: seq<nat>, i: nat)
    requires i <= |xs|
    ensures Sum(xs) == Sum(xs[..i]) + Sum(xs[i..])
  {
    SumConcat(xs[..i], xs[i..]);
    assert xs == xs[..i] + xs[i..];
  }

  lemma SumAt(xs: seq<nat>, i: nat)
    requires i < |xs|
    ensures Sum(xs[..i + 1]) == Sum(xs[..i]) + xs[i]
    ensures Sum(xs[i..]) == xs[i] + Sum(xs[i + 1..])
  {
    SumConcat(xs[..i], [xs[i]]);
    assert xs[..i + 1] == xs[..i] + [xs[i]];
    assert Sum([xs[i]]) == xs[i] + Sum([xs[i]][1..]);
    assert xs[i..][1..] == xs[i + 1..];
  }

  lemma {:induction false} SumCoversCount(xs: seq<nat>, least: nat)
    requires forall i :: 0 <= i < |xs| ==> xs[i] <= least
    ensures Sum(xs) <= |xs| * least
    decreases xs
  {
    if xs != [] {
      SumCoversCount(xs[1..], least);
      assert |xs| * least == least + (|xs| - 1) * least;
    }
  }

  /** The scan from the left: stops at the first node that no longer fits, or at k - 1. */
  function ScanRight(sizes: seq<nat>, i: nat, k: nat, acc: nat, pmax: int): (s: nat)
    requires i < k <= |sizes|
    ensures i <= s < k
    decreases k - i
  {
    if acc + sizes[i] > pmax || i == k - 1 then i else ScanRight(sizes, i + 1, k, acc + sizes[i], pmax)
  }

  /** The scan from the right: stops at the first node that no longer fits, or at k + 1. */
  function ScanLeft(sizes: seq<nat>, i: int, k: int, acc: nat, pmax: int): (s: nat)
    requires -1 <= k < i < |sizes|
    ensures k + 2 <= s <= i + 1
    decreases i
  {
    if acc + sizes[i] > pmax || i == k + 1 then i + 1 else ScanLeft(sizes, i - 1, k, acc + sizes[i], pmax)
  }

  /** The split point is searched for when nodes are few, the new one is large, or it goes last. */
  predicate Searched(nkeys: nat, nsize: nat, newindx: nat, pmax: int) {
    nkeys < 20 || nsize > pmax / 16 || newindx >= nkeys
  }

  /**
    The index in `sizes` (old nodes with the new one in place) where the right page starts.
   */
  function SplitIndex(sizes: seq<nat>, newindx: nat, pmax: int): (s: nat)
    requires |sizes| >= 3 && newindx < |sizes|
    ensures s <= |sizes|
  {
    var nkeys := |sizes| - 1;
    var mid := (nkeys + 1) / 2;
    if Searched(nkeys, sizes[newindx], newindx, pmax) then
      if newindx <= mid || newindx >= nkeys then
        ScanRight(sizes, 0, if newindx >= nkeys then nkeys else mid + 2, 0, pmax)
      else
        ScanLeft(sizes, nkeys, mid - 1, 0, pmax)
    else mid
  }

  /** The loop of mdb_page_split computes that index. */
  method FindSplit(sizes: seq<nat>, newindx: nat, pmax: int) returns (split: int)
    requires |sizes| >= 3 && newindx < |sizes|
    ensures split == SplitIndex(sizes, newindx, pmax)
    ensures pmax >= 0 ==> IsSplitPoint(sizes, newindx, pmax, split)
  {
    if pmax >= 0 { SplitIndexIs(sizes, newindx, pmax, SplitIndex(sizes, newindx, pmax)); }
    var nkeys := |sizes| - 1;
    split := (nkeys + 1) / 2;
    if nkeys < 20 || sizes[newindx] > pmax / 16 || newindx >= nkeys {
      var psize, i, j, k := 0, 0, 1, 0;
      if newindx <= split || newindx >= nkeys {
        k := if newindx >= nkeys then nkeys else split + 2;
      } else {
        i, j := nkeys, -1;
        k := split - 1;
      }
      ghost var mid := split;
      while i != k
        invariant psize >= 0 && split == mid
        invariant j == 1 ==>
          0 <= i < k <= |sizes| && (newindx <= mid || newindx >= nkeys) &&
          SplitIndex(sizes, newindx, pmax) == ScanRight(sizes, i, k, psize, pmax)
        invariant j == -1 ==>
          0 <= k < i <= nkeys && mid < newindx < nkeys &&
          SplitIndex(sizes, newindx, pmax) == ScanLeft(sizes, i, k, psize, pmax)
        invariant j == 1 || j == -1
        decreases if j == 1 then k - i else i - k
      {
        psize := psize + sizes[i];
        if psize > pmax || i == k - j {
          split := i + if j < 0 then 1 else 0;
          return;
        }
        i := i + j;
      }
    }
  }

  // ---------------------------------------------------------------- which index that is

  /** The largest index up to `last` whose left part still fits. */
  ghost predicate LastFit(sizes: seq<nat>, s: int, last: int, pmax: int) {
    && 0 <= s <= last <= |sizes| && Sum(sizes[..s]) <= pmax
    && forall j :: s < j <= last ==> Sum(sizes[..j]) > pmax
  }

  /** The smallest index from `first` on whose right part still fits. */
  ghost predicate FirstFit(sizes: seq<nat>, s: int, first: int, pmax: int) {
    && 0 <= first <= s <= |sizes| && Sum(sizes[s..]) <= pmax
    && forall j :: first <= j < s ==> Sum(sizes[j..]) > pmax
  }

  /**
    Where a page is cut.  With twenty old nodes or more, and a small new one that is not the last,
    in the middle.  Otherwise as far to the right as fits, up to just behind the middle for a new
    node in the left half and up to the second last node for a new last one; or as far to the left
    as fits, down to just behind the middle, for a new node in the right half.
   */
  ghost predicate IsSplitPoint(sizes: seq<nat>, newindx: nat, pmax: int, s: int)
    requires newindx < |sizes|
  {
    var last, mid := |sizes| - 1, |sizes| / 2;
    if |sizes| > 20 && 16 * sizes[newindx] <= pmax && newindx < last then s == mid
    else if newindx == last then LastFit(sizes, s, last - 1, pmax)
    else if newindx <= mid then LastFit(sizes, s, mid + 1, pmax)
    else FirstFit(sizes, s, mid + 1, pmax)
  }

  lemma SumPrefixes(sizes: seq<nat>, i: nat, j: nat)
    requires i <= j <= |sizes|
    ensures Sum(sizes[..i]) <= Sum(sizes[..j]) && Sum(sizes[j..]) <= Sum(sizes[i..])
  {
    SumCut(sizes[..j], i);
    SumCut(sizes[i..], j - i);
    assert sizes[..j][..i] == sizes[..i] && sizes[i..][j - i..] == sizes[j..];
  }

  lemma ScanRightIs(sizes: seq<nat>, k: nat, pmax: int)
    requires 0 < k <= |sizes| && pmax >= 0
    ensures LastFit(sizes, ScanRight(sizes, 0, k, 0, pmax), k - 1, pmax)
  {
    assert sizes[..0] == [];
    ScanRightStops(sizes, 0, k, pmax);
    var s := ScanRight(sizes, 0, k, 0, pmax);
    hide ScanRight;
    forall j | s < j <= k - 1 ensures Sum(sizes[..j]) > pmax { SumPrefixes(sizes, s + 1, j); }
  }

  lemma ScanLeftIs(sizes: seq<nat>, k: int, pmax: int)
    requires -1 <= k < |sizes| - 1 && pmax >= 0
    ensures FirstFit(sizes, ScanLeft(sizes, |sizes| - 1, k, 0, pmax), k + 2, pmax)
  {
    assert sizes[|sizes|..] == [];
    ScanLeftStops(sizes, |sizes| - 1, k, pmax);
    var s := ScanLeft(sizes, |sizes| - 1, k, 0, pmax);
    hide ScanLeft;
    forall j | k + 2 <= j < s ensures Sum(sizes[j..]) > pmax { SumPrefixes(sizes, j, s - 1); }
  }

  /** The index computed is that point, and there is only one. */
  lemma SplitIndexIs(sizes: seq<nat>, newindx: nat, pmax: int, s: int)
    requires |sizes| >= 3 && newindx < |sizes| && pmax >= 0
    ensures IsSplitPoint(sizes, newindx, pmax, s) <==> s == SplitIndex(sizes, newindx, pmax)
  {
    hide Sum, ScanRight, ScanLeft;
    var last, mid := |sizes| - 1, |sizes| / 2;
    assert Searched(last, sizes[newindx], newindx, pmax) <==>
        !(|sizes| > 20 && 16 * sizes[newindx] <= pmax && newindx < last);
    if newindx == last {
      ScanRightIs(sizes, last, pmax);
      LastFitOnce(sizes, s, ScanRight(sizes, 0, last, 0, pmax), last - 1, pmax);
    } else if newindx <= mid {
      ScanRightIs(sizes, mid + 2, pmax);
      LastFitOnce(sizes, s, ScanRight(sizes, 0, mid + 2, 0, pmax), mid + 1, pmax);
    } else {
      ScanLeftIs(sizes, mid - 1, pmax);
      FirstFitOnce(sizes, s, ScanLeft(sizes, last, mid - 1, 0, pmax), mid + 1, pmax);
    }
  }

  lemma LastFitOnce(sizes: seq<nat>, s: int, r: int, last: int, pmax: int)
    requires LastFit(sizes, r, last, pmax)
    ensures LastFit(sizes, s, last, pmax) ==> s == r
  {}

  lemma FirstFitOnce(sizes: seq<nat>, s: int, r: int, first: int, pmax: int)
    requires FirstFit(sizes, r, first, pmax)
    ensures FirstFit(sizes, s, first, pmax) ==> s == r
  {}

  // ---------------------------------------------------------------- the halves

  ghost predicate Halves(sizes: seq<nat>, s: int, pmax: int) {
    0 <= s <= |sizes| && Sum(sizes[..s]) <= pmax && Sum(sizes[s..]) <= pmax
  }

  /** Where the scan from the left stops. */
  lemma {:induction false} ScanRightStops(sizes: seq<nat>, i: nat, k: nat, pmax: int)
    requires i < k <= |sizes| && Sum(sizes[..i]) <= pmax
    ensures var s := ScanRight(sizes, i, k, Sum(sizes[..i]), pmax);
      && i <= s < k && Sum(sizes[..s]) <= pmax
      && (Sum(sizes[..s + 1]) > pmax || s == k - 1)
    decreases k - i
  {
    SumAt(sizes, i);
    if Sum(sizes[..i + 1]) <= pmax && i != k - 1 { ScanRightStops(sizes, i + 1, k, pmax); }
  }

  lemma {:induction false} ScanLeftStops(sizes: seq<nat>, i: int, k: int, pmax: int)
    requires -1 <= k < i < |sizes| && Sum(sizes[i + 1..]) <= pmax
    ensures var s := ScanLeft(sizes, i, k, Sum(sizes[i + 1..]), pmax);
      && k + 2 <= s <= i + 1 && Sum(sizes[s..]) <= pmax
      && (Sum(sizes[s - 1..]) > pmax || s == k + 2)
    decreases i
  {
    SumAt(sizes, i);
    if Sum(sizes[i..]) <= pmax && i != k + 1 { ScanLeftStops(sizes, i - 1, k, pmax); }
  }

  lemma SumHolds(xs: seq<nat>, i: nat)
    requires i < |xs|
    ensures Sum(xs) >= xs[i]
  {
    SumCut(xs, i);
    SumAt(xs, i);
  }

  /** A cut next to an overflow leaves both sides within a page, when no node takes more than half of one. */
  lemma CutNearOverflow(sizes: seq<nat>, s: nat, newindx: nat, pmax: nat)
    requires s < |sizes| && newindx < |sizes|
    requires forall i :: 0 <= i < |sizes| ==> sizes[i] <= pmax / 2
    requires Sum(sizes) - sizes[newindx] <= pmax
    ensures Sum(sizes[..s + 1]) > pmax ==> Sum(sizes[s..]) <= pmax
    ensures Sum(sizes[s..]) > pmax ==> Sum(sizes[..s + 1]) <= pmax
  {
    SumCut(sizes, s);
    SumCut(sizes, s + 1);
    SumAt(sizes, s);
  }

  /** A side without the new node holds only nodes that were on the page before. */
  lemma CutBesideNew(sizes: seq<nat>, s: nat, newindx: nat)
    requires s <= |sizes| && newindx < |sizes|
    ensures newindx < s ==> Sum(sizes[s..]) <= Sum(sizes) - sizes[newindx]
    ensures newindx >= s ==> Sum(sizes[..s]) <= Sum(sizes) - sizes[newindx]
  {
    SumCut(sizes, s);
    if newindx < s {
      SumHolds(sizes[..s], newindx);
    } else {
      SumHolds(sizes[s..], newindx - s);
    }
  }

  /**
    When the split point is searched for, both pages are non-empty and fit: for any page of
    at least two nodes, none larger than half a page, that fitted before the insertion.
   */
  lemma SplitFits(sizes: seq<nat>, newindx: nat, pmax: nat)
    requires |sizes| >= 3 && newindx < |sizes|
    requires forall i :: 0 <= i < |sizes| ==> sizes[i] <= pmax / 2
    requires Sum(sizes) - sizes[newindx] <= pmax
    requires Searched(|sizes| - 1, sizes[newindx], newindx, pmax)
    ensures var s := SplitIndex(sizes, newindx, pmax); 1 <= s <= |sizes| - 1 && Halves(sizes, s, pmax)
  {
    if newindx <= |sizes| / 2 || newindx >= |sizes| - 1 {
      SplitFitsRightward(sizes, newindx, pmax);
    } else {
      SplitFitsLeftward(sizes, newindx, pmax);
    }
  }

  /** Exactly when both pages fit: the split point is searched for, or the middle happens to be one. */
  lemma SplitFitsIff(sizes: seq<nat>, newindx: nat, pmax: nat)
    requires |sizes| >= 3 && newindx < |sizes|
    requires forall i :: 0 <= i < |sizes| ==> sizes[i] <= pmax / 2
    requires Sum(sizes) - sizes[newindx] <= pmax
    ensures Halves(sizes, SplitIndex(sizes, newindx, pmax), pmax)
      <==> Searched(|sizes| - 1, sizes[newindx], newindx, pmax) || Halves(sizes, |sizes| / 2, pmax)
  {
    if Searched(|sizes| - 1, sizes[newindx], newindx, pmax) { SplitFits(sizes, newindx, pmax); }
  }

  lemma SplitFitsRightward(sizes: seq<nat>, newindx: nat, pmax: nat)
    requires |sizes| >= 3 && newindx < |sizes|
    requires forall i :: 0 <= i < |sizes| ==> sizes[i] <= pmax / 2
    requires Sum(sizes) - sizes[newindx] <= pmax
    requires newindx <= |sizes| / 2 || newindx == |sizes| - 1
    ensures var s := ScanRight(sizes, 0, if newindx == |sizes| - 1 then newindx else |sizes| / 2 + 2, 0, pmax);
      1 <= s <= |sizes| - 1 && Halves(sizes, s, pmax)
  {
    var k := if newindx == |sizes| - 1 then newindx else |sizes| / 2 + 2;
    assert sizes[..0] == [];
    ScanRightStops(sizes, 0, k, pmax);
    var s := ScanRight(sizes, 0, k, 0, pmax);
    hide ScanRight;
    SumAt(sizes, 0);
    CutNearOverflow(sizes, s, newindx, pmax);
    if newindx == |sizes| - 1 && s == k - 1 {
      SumAt(sizes, s);
      SumAt(sizes, s + 1);
      assert sizes[s + 2..] == [];
    } else {
      CutBesideNew(sizes, s, newindx);
    }
  }

  lemma SplitFitsLeftward(sizes: seq<nat>, newindx: nat, pmax: nat)
    requires |sizes| >= 3 && |sizes| / 2 < newindx < |sizes| - 1
    requires forall i :: 0 <= i < |sizes| ==> sizes[i] <= pmax / 2
    requires Sum(sizes) - sizes[newindx] <= pmax
    ensures var s := ScanLeft(sizes, |sizes| - 1, |sizes| / 2 - 1, 0, pmax);
      1 <= s <= |sizes| - 1 && Halves(sizes, s, pmax)
  {
    var n := |sizes| - 1;
    assert sizes[n + 1..] == [];
    assert Sum(sizes[n + 1..]) == 0;
    hide Sum;
    ScanLeftStops(sizes, n, |sizes| / 2 - 1, pmax);
    var s := ScanLeft(sizes, n, |sizes| / 2 - 1, 0, pmax);
    hide ScanLeft;
    SumAt(sizes, n);
    CutNearOverflow(sizes, s - 1, newindx, pmax);
    CutBesideNew(sizes, s, newindx);
  }

  lemma TwoFit(xs: seq<nat>, most: nat)
    requires forall i :: 0 <= i < |xs| ==> xs[i] <= most
    ensures |xs| <= 2 ==> Sum(xs) <= 2 * most
  {
    if |xs| == 2 { assert xs[1..][0] == xs[1] && xs[1..][1..] == []; }
  }

  /** Whether searched for or not, a split leaves at least two nodes on each side when nodes are small. */
  lemma SplitLeavesTwo(sizes: seq<nat>, newindx: nat, pmax: nat)
    requires |sizes| >= 6 && newindx < |sizes|
    requires forall i :: 0 <= i < |sizes| ==> sizes[i] <= pmax / 3
    ensures 2 <= SplitIndex(sizes, newindx, pmax) <= |sizes| - 2
  {
    hide Sum, SplitIndex;
    var s := SplitIndex(sizes, newindx, pmax);
    SplitIndexIs(sizes, newindx, pmax, s);
    if s < 2 { TwoFit(sizes[..s + 1], pmax / 3); }
    if s > |sizes| - 2 && s > 0 { TwoFit(sizes[s - 1..], pmax / 3); }
  }

  /** Not searched for: ten small nodes, then ten large ones, and the new node among the large ones. */
  lemma UnsearchedSplitOverflows()
    ensures exists sizes: seq<nat>, newindx: nat :: Overflows(sizes, newindx, 4080)
  {
    var small: seq<nat>, large: seq<nat>, x: seq<nat> := seq(10, _ => 14), seq(5, _ => 390), [200];
    var right := large + x + large;
    var sizes := small + right;
    SumConst(14, 10);
    SumConst(390, 5);
    assert Sum(x) == 200 + Sum(x[1..]);
    SumConcat(large, x);
    SumConcat(large + x, large);
    SumConcat(small, right);
    assert sizes[10..] == right;
    assert SplitIndex(sizes, 15, 4080) == 10;
    assert Overflows(sizes, 15, 4080);
  }

  /** Nodes that fitted a page, none larger than half of it, and a new one after which a half does not fit. */
  ghost predicate Overflows(sizes: seq<nat>, newindx: nat, pmax: nat) {
    && |sizes| >= 3 && newindx < |sizes|
    && (forall i :: 0 <= i < |sizes| ==> sizes[i] <= pmax / 2)
    && Sum(sizes) - sizes[newindx] <= pmax < Sum(sizes)
    && !Halves(sizes, SplitIndex(sizes, newindx, pmax), pmax)
  }

  lemma {:induction false} SumConst(c: nat, n: nat)
    ensures Sum(seq(n, _ => c)) == n * c
  {
    if n > 0 {
      assert seq(n, _ => c)[1..] == seq((n - 1) as nat, _ => c);
      SumConst(c, n - 1);
    }
  }
}
