/**
  The allocator's work on the reclaimed list me_pghead: finding and removing a run of
  consecutive page numbers, putting a run back, taking in freeDB records, and returning
  loose pages (parts of mdb_page_alloc, mdb_ovpage_free and mdb_freelist_save).
 */
module PageAlloc {
  import opened IdLists
  import opened IdSort
  import Recycler

  // ---------------------------------------------------------------- runs of consecutive pages

  /** The `num` entries ending at index k are consecutive page numbers. */
  ghost predicate RunEndsAt(e: seq<nat>, k: int, num: nat) {
    num - 1 <= k < |e| && forall q :: k - num < q <= k ==> e[q] == e[k] + (k - q)
  }

  /** Strict order keeps entries apart by at least their distance. */
  lemma {:induction false} Spread(e: seq<nat>, i: nat, j: nat)
    requires StrictlyDescending(e) && i <= j < |e|
    ensures e[i] >= e[j] + (j - i)
    decreases j - i
  {
    if i < j { Spread(e, i + 1, j); }
  }

  /** The test on the two endpoints decides whether a run ends at k. */
  lemma EndpointTest(e: seq<nat>, k: nat, num: nat)
    requires StrictlyDescending(e) && 1 <= num <= k + 1 <= |e|
    ensures RunEndsAt(e, k, num) <==> e[k - (num - 1)] == e[k] + (num - 1)
  {
    if e[k - (num - 1)] == e[k] + (num - 1) {
      forall q | k - num < q <= k ensures e[q] == e[k] + (k - q) {
        Spread(e, q, k);
        Spread(e, k - (num - 1), q);
      }
    }
  }

  /** Consecutive pages that are all in the list are neighbours in it. */
  lemma {:induction false} PagesFormRun(e: seq<nat>, p: nat, num: nat) returns (k: nat)
    requires StrictlyDescending(e) && num >= 1
    requires forall x :: p <= x < p + num ==> x in e
    ensures k < |e| && e[k] == p && RunEndsAt(e, k, num)
    decreases num
  {
    assert p in e;
    k :| 0 <= k < |e| && e[k] == p;
    if num > 1 {
      var k' := PagesFormRun(e, p + 1, num - 1);
      if k > k' { Spread(e, k', k); }
      assert k == k' + 1;
    }
  }

  /** The list offers `num` consecutive pages. */
  ghost predicate HasRun(e: seq<nat>, num: nat) {
    exists k :: RunEndsAt(e, k, num)
  }

  /** The last run of the list, the one with the lowest page numbers, ends at `k`. */
  ghost predicate LastRunEndsAt(e: seq<nat>, k: int, num: nat) {
    RunEndsAt(e, k, num) && forall j :: k < j < |e| ==> !RunEndsAt(e, j, num)
  }

  /** All of `num` page numbers from `q` on are among `m`. */
  ghost predicate AllIn(m: multiset<nat>, q: nat, num: nat) {
    forall x :: q <= x < q + num ==> x in m
  }

  /** No `num` consecutive page numbers are among `m`. */
  ghost predicate NoRun(m: multiset<nat>, num: nat) {
    forall q :: !AllIn(m, q, num)
  }

  /** `pgno` starts the lowest run of `num` page numbers among `m`. */
  ghost predicate IsLowestRun(m: multiset<nat>, pgno: nat, num: nat) {
    AllIn(m, pgno, num) && forall q :: AllIn(m, q, num) ==> pgno <= q
  }

  lemma RunIsAllIn(e: seq<nat>, k: int, num: nat)
    requires RunEndsAt(e, k, num) && num >= 1
    ensures 0 <= k < |e| && AllIn(multiset(e), e[k], num)
  {
    forall x | e[k] <= x < e[k] + num ensures x in multiset(e) {
      var i := k - (x - e[k]);
      assert e[i] == x;
    }
  }

  lemma AllInIsRun(e: seq<nat>, q: nat, num: nat) returns (k: nat)
    requires StrictlyDescending(e) && num >= 1 && AllIn(multiset(e), q, num)
    ensures k < |e| && e[k] == q && RunEndsAt(e, k, num)
  {
    forall x | q <= x < q + num ensures x in e { assert x in multiset(e); }
    k := PagesFormRun(e, q, num);
  }

  /** Runs of entries are runs of page numbers. */
  lemma NoRunIff(e: seq<nat>, num: nat)
    requires StrictlyDescending(e) && num >= 1
    ensures HasRun(e, num) <==> !NoRun(multiset(e), num)
  {
    if k :| RunEndsAt(e, k, num) { RunIsAllIn(e, k, num); }
    if q :| AllIn(multiset(e), q, num) { var k := AllInIsRun(e, q, num); }
  }

  /** The last run of a descending list has the lowest page numbers. */
  lemma LastIsLowest(e: seq<nat>, k: int, num: nat)
    requires StrictlyDescending(e) && num >= 1 && LastRunEndsAt(e, k, num)
    ensures 0 <= k < |e| && IsLowestRun(multiset(e), e[k], num)
  {
    RunIsAllIn(e, k, num);
    forall q | AllIn(multiset(e), q, num) ensures e[k] <= q {
      var j := AllInIsRun(e, q, num);
      assert j <= k;
    }
  }

  /** mdb_page_alloc's seek for a contiguous range, from the tail.  Position 0 means there is none. */
  method FindRun(mop: array<nat>, num: nat) returns (i: nat)
    requires IsIdl(mop) && StrictlyDescending(Entries(mop)) && num >= 1
    ensures i != 0 <==> HasRun(Entries(mop), num)
    ensures i != 0 ==> i <= mop[0] && LastRunEndsAt(Entries(mop), i - 1, num)
  {
    ghost var e := Entries(mop);
    assert forall q {:trigger mop[q]} :: 1 <= q <= mop[0] ==> mop[q] == e[q - 1];
    var n2 := num - 1;
    i := 0;
    if mop[0] > n2 {
      i := mop[0];
      while i > n2
        invariant n2 <= i <= mop[0]
        invariant forall k :: i <= k < mop[0] ==> !RunEndsAt(e, k, num)
      {
        EndpointTest(e, i - 1, num);
        if mop[i - n2] == mop[i] + n2 {
          return;
        }
        i := i - 1;
      }
      i := 0;
    }
  }

  lemma RemovedSlices(s: seq<nat>, t: seq<nat>, i: nat, num: nat, len: nat)
    requires |t| == |s| && num <= i <= len < |s|
    requires forall q :: 1 <= q <= i - num ==> t[q] == s[q]
    requires forall q {:trigger t[q]} :: i - num < q <= len - num ==> t[q] == s[q + num]
    ensures t[1..len - num + 1] == s[1..len + 1][..i - num] + s[1..len + 1][i..]
  {
    var u, v := t[1..len - num + 1], s[1..len + 1][..i - num] + s[1..len + 1][i..];
    forall k | 0 <= k < |u| ensures u[k] == v[k] {
      assert u[k] == t[k + 1];
    }
  }

  /** Move any stragglers down. */
  method MoveDown(mop: array<nat>, i0: nat, num: nat, mopLen: nat)
    requires num <= i0 <= mopLen + num < mop.Length && mop.Length > 0
    modifies mop
    ensures forall q :: 0 <= q <= i0 - num ==> mop[q] == old(mop[q])
    ensures forall q {:trigger mop[q]} :: i0 - num < q <= mopLen ==> mop[q] == old(mop[q + num])
  {
    var i, j := i0, i0 - num;
    while j < mopLen
      invariant i0 - num <= j <= mopLen && i == j + num
      invariant forall q :: 0 <= q <= i0 - num ==> mop[q] == old(mop[q])
      invariant forall q {:trigger mop[q]} :: i0 - num < q <= j ==> mop[q] == old(mop[q + num])
      invariant forall q :: j < q < mop.Length ==> mop[q] == old(mop[q])
    {
      j, i := j + 1, i + 1;
      mop[j] := mop[i];
    }
  }

  /** Remove the run ending at position `i`. */
  method RemoveRun(mop: array<nat>, i: nat, num: nat)
    requires IsIdl(mop) && 1 <= num <= i <= mop[0]
    modifies mop
    ensures IsIdl(mop) && Entries(mop) == old(Entries(mop))[..i - num] + old(Entries(mop))[i..]
  {
    ghost var s: seq<nat> := mop[..];
    var mopLen := mop[0] - num;
    mop[0] := mopLen;
    MoveDown(mop, i, num, mopLen);
    RemovedSlices(s, mop[..], i, num, mopLen + num);
    assert Entries(mop) == mop[..][1..mopLen + 1];
    assert old(Entries(mop)) == s[1..mopLen + num + 1];
  }

  /** `t` is the list `s` with the entries behind `at`, all below `pg`, moved up by `n` places. */
  ghost predicate MovedUp(s: seq<nat>, t: seq<nat>, at: nat, pg: nat, n: nat) {
    && |s| == |t| > 0 && at <= s[0] && s[0] + n < |s| && t[0] == s[0] && (at > 0 ==> t[at] >= pg)
    && (forall q {:trigger s[q]} :: at < q <= s[0] ==> s[q] < pg)
    && (forall q {:trigger t[q]} :: 1 <= q <= at ==> t[q] == s[q])
    && (forall q {:trigger t[q]} :: at + n < q <= s[0] + n ==> t[q] == s[q - n])
  }

  /** The first loop of the insertion: entries below `pg` move up by `n` places. */
  method MoveBelowUp(mop: array<nat>, pg: nat, n: nat) returns (i: nat)
    requires IsIdl(mop) && mop[0] + n < mop.Length
    modifies mop
    ensures MovedUp(old(mop[..]), mop[..], i, pg, n)
  {
    i := mop[0];
    var j := i + n;
    while i > 0 && mop[i] < pg
      invariant 0 <= i <= mop[0] && j == i + n && mop[0] == old(mop[0])
      invariant forall q :: i < q <= mop[0] ==> old(mop[q]) < pg
      invariant forall q {:trigger mop[q]} :: 0 <= q <= i ==> mop[q] == old(mop[q])
      invariant forall q {:trigger mop[q]} :: j < q <= mop[0] + n ==> mop[q] == old(mop[q - n])
    {
      mop[j] := mop[i];
      i, j := i - 1, j - 1;
    }
  }

  lemma InsertedSlices(s: seq<nat>, t: seq<nat>, at: nat, pg: nat, n: nat, len: nat)
    requires |t| == |s| && at <= len && len + n < |s|
    requires forall q :: 1 <= q <= at ==> t[q] == s[q]
    requires forall q {:trigger t[q]} :: at < q <= at + n ==> t[q] == pg + (at + n - q)
    requires forall q {:trigger t[q]} :: at + n < q <= len + n ==> t[q] == s[q - n]
    ensures t[1..len + n + 1] == s[1..len + 1][..at] + RangeDown(pg, n) + s[1..len + 1][at..]
  {
    var u, v := t[1..len + n + 1], s[1..len + 1][..at] + RangeDown(pg, n) + s[1..len + 1][at..];
    forall k | 0 <= k < |u| ensures u[k] == v[k] {
      assert u[k] == t[k + 1];
    }
  }

  /** mdb_ovpage_free: put `ovpages` pages from `pg` back where they belong. */
  method InsertRun(mop: array<nat>, pg0: nat, ovpages: nat) returns (ghost at: nat)
    requires IsIdl(mop) && mop[0] + ovpages < mop.Length
    requires StrictlyDescending(Entries(mop))
    requires forall q :: 0 <= q < mop[0] ==> !(pg0 <= Entries(mop)[q] < pg0 + ovpages)
    modifies mop
    ensures IsIdl(mop) && at <= |old(Entries(mop))|
    ensures Entries(mop) == old(Entries(mop))[..at] + RangeDown(pg0, ovpages) + old(Entries(mop))[at..]
    ensures StrictlyDescending(Entries(mop))
  {
    hide StrictlyDescending, RangeDown, IsPut;
    ghost var e, s := Entries(mop), mop[..];
    at := PutRun(mop, pg0, ovpages);
    PutIs(s, mop[..], e, at, pg0, ovpages);
    InsertedDescends(e, at, pg0, ovpages);
  }

  /** `t` is the list `s` with a run of `n` numbers from `pg` behind its first `at` entries. */
  ghost predicate IsPut(s: seq<nat>, t: seq<nat>, at: nat, pg: nat, n: nat) {
    && |s| == |t| > 0 && at <= s[0] && s[0] + n < |s| && t[0] == s[0] + n
    && (forall q {:trigger t[q]} :: 1 <= q <= at ==> t[q] == s[q] >= pg)
    && (forall q {:trigger t[q]} :: at < q <= at + n ==> t[q] == pg + (at + n - q))
    && (forall q {:trigger t[q]} :: at + n < q <= s[0] + n ==> t[q] == s[q - n] < pg)
  }

  method PutRun(mop: array<nat>, pg0: nat, ovpages: nat) returns (at: nat)
    requires IsIdl(mop) && mop[0] + ovpages < mop.Length && StrictlyDescending(Entries(mop))
    modifies mop
    ensures IsIdl(mop) && IsPut(old(mop[..]), mop[..], at, pg0, ovpages)
  {
    hide StrictlyDescending, IsPut, MovedUp, Filled;
    ghost var s: seq<nat> := mop[..];
    assert Entries(mop) == s[1..s[0] + 1];
    at := MoveBelowUp(mop, pg0, ovpages);
    ghost var t: seq<nat> := mop[..];
    MovedUpRoom(s, t, at, pg0, ovpages);
    FillRange(mop, at, ovpages, pg0);
    ghost var u: seq<nat> := mop[..];
    FilledRest(t, u, at, ovpages, pg0);
    mop[0] := mop[0] + ovpages;
    PutParts(s, t, u, mop[..], at, pg0, ovpages);
  }

  lemma MovedUpRoom(s: seq<nat>, t: seq<nat>, at: nat, pg: nat, n: nat)
    requires MovedUp(s, t, at, pg, n)
    ensures |s| == |t| > at + n && t[0] == s[0] && s[0] + n < |s|
  {}

  lemma FilledRest(s: seq<nat>, t: seq<nat>, len: nat, n: nat, id: nat)
    requires Filled(s, t, len, n, id)
    ensures |t| == |s| > 0 && t[0] == s[0]
  {}

  /** In a descending list the entries before one that is not below `pg` are not below it either. */
  lemma AboveAll(s: seq<nat>, at: nat, pg: nat, q: nat)
    requires s != [] && 0 < s[0] < |s| && StrictlyDescending(s[1..s[0] + 1]) && 1 <= q <= at <= s[0] && s[at] >= pg
    ensures s[q] >= pg
  {
    var e := s[1..s[0] + 1];
    assert e[q - 1] == s[q] && e[at - 1] == s[at];
  }

  lemma PutAt(s: seq<nat>, t: seq<nat>, u: seq<nat>, at: nat, pg: nat, n: nat, q: nat)
    requires MovedUp(s, t, at, pg, n) && Filled(t, u, at, n, pg) && StrictlyDescending(s[1..s[0] + 1]) &&
      1 <= q <= s[0] + n
    ensures 1 <= q <= at ==> u[q] == s[q] >= pg
    ensures at < q <= at + n ==> u[q] == pg + (at + n - q)
    ensures at + n < q ==> u[q] == s[q - n] < pg
  {
    hide StrictlyDescending;
    if q <= at {
      assert u[q] == t[q] && t[at] == s[at];
      AboveAll(s, at, pg, q);
    } else if at + n < q {
      assert u[q] == t[q];
    }
  }

  /** The tail moved up and the gap filled. */
  lemma PutParts(s: seq<nat>, t: seq<nat>, u: seq<nat>, v: seq<nat>, at: nat, pg: nat, n: nat)
    requires MovedUp(s, t, at, pg, n) && Filled(t, u, at, n, pg) && StrictlyDescending(s[1..s[0] + 1])
    requires |v| == |u| && v[0] == s[0] + n && forall q {:trigger v[q]} :: 1 <= q < |v| ==> v[q] == u[q]
    ensures IsPut(s, v, at, pg, n)
  {
    assert at <= s[0] && s[0] + n < |s| == |v|;
    hide StrictlyDescending, MovedUp, Filled;
    forall q {:trigger v[q]} | 1 <= q <= at ensures v[q] == s[q] >= pg { PutAt(s, t, u, at, pg, n, q); }
    forall q {:trigger v[q]} | at < q <= at + n ensures v[q] == pg + (at + n - q) { PutAt(s, t, u, at, pg, n, q); }
    forall q {:trigger v[q]} | at + n < q <= s[0] + n ensures v[q] == s[q - n] < pg { PutAt(s, t, u, at, pg, n, q); }
  }

  lemma PutIs(s: seq<nat>, t: seq<nat>, e: seq<nat>, at: nat, pg: nat, n: nat)
    requires IsPut(s, t, at, pg, n) && e == s[1..s[0] + 1]
    ensures t[1..t[0] + 1] == e[..at] + RangeDown(pg, n) + e[at..] && at <= |e| == s[0]
    ensures forall q :: 0 <= q < at ==> e[q] >= pg
    ensures forall q :: at <= q < |e| ==> e[q] < pg
  {
    InsertedSlices(s, t, at, pg, n, s[0]);
    forall q | 0 <= q < at ensures e[q] >= pg { assert e[q] == t[q + 1]; }
    forall q | at <= q < s[0] ensures e[q] < pg { assert e[q] == t[q + 1 + n]; }
  }

  lemma InsertedDescends(e: seq<nat>, at: nat, pg: nat, n: nat)
    requires StrictlyDescending(e) && at <= |e|
    requires at > 0 ==> e[at - 1] >= pg + n
    requires forall q :: at <= q < |e| ==> e[q] < pg
    ensures StrictlyDescending(e[..at] + RangeDown(pg, n) + e[at..])
  {}

  /** Removing the run that was put back restores the list. */
  lemma RemoveUndoesInsert(e: seq<nat>, at: nat, pg: nat, num: nat)
    requires at <= |e| && num >= 1
    ensures var f := e[..at] + RangeDown(pg, num) + e[at..];
      RunEndsAt(f, at + num - 1, num) && f[at + num - 1] == pg && f[..at] + f[at + num..] == e
  {}

  // ---------------------------------------------------------------- readers

  datatype ReaderSlot = ReaderSlot(pid: nat, txnid: nat)

  /** mdb_find_oldest */
  method FindOldest(txnid: nat, readers: seq<ReaderSlot>) returns (oldest: nat)
    requires txnid > 0
    ensures oldest <= txnid - 1
    ensures forall i :: 0 <= i < |readers| && readers[i].pid != 0 ==> oldest <= readers[i].txnid
    ensures oldest == txnid - 1 || exists i :: 0 <= i < |readers| && readers[i].pid != 0 && oldest == readers[i].txnid
  {
    oldest := txnid - 1;
    var i := |readers|;
    while i > 0
      invariant 0 <= i <= |readers| && oldest <= txnid - 1
      invariant forall k :: i <= k < |readers| && readers[k].pid != 0 ==> oldest <= readers[k].txnid
      invariant oldest == txnid - 1 ||
        exists k :: i <= k < |readers| && readers[k].pid != 0 && oldest == readers[k].txnid
    {
      i := i - 1;
      if readers[i].pid != 0 {
        var mr := readers[i].txnid;
        if oldest > mr {
          oldest := mr;
        }
      }
    }
  }

  /** The table shows the readers of the recycler; idle slots carry MAX_ID. */
  ghost predicate Shows(table: seq<ReaderSlot>, readers: map<Recycler.Slot, Recycler.Meta>) {
    && (forall r :: r in readers ==> r < |table| && table[r].pid != 0 && table[r].txnid == readers[r].txnid)
    && (forall i :: 0 <= i < |table| && table[i].pid != 0 && i !in readers ==> table[i].txnid == MAX_ID)
  }

  /** What the scan finds is the oldest the recycler's steps rely on. */
  lemma OldestIsOldest(table: seq<ReaderSlot>, readers: map<Recycler.Slot, Recycler.Meta>, txnid: nat, oldest: nat)
    requires Shows(table, readers) && 0 < txnid <= MAX_ID && oldest <= txnid - 1
    requires forall i :: 0 <= i < |table| && table[i].pid != 0 ==> oldest <= table[i].txnid
    requires oldest == txnid - 1 || exists i :: 0 <= i < |table| && table[i].pid != 0 && oldest == table[i].txnid
    ensures Recycler.IsOldest(readers, txnid, oldest)
  {
    if oldest != txnid - 1 {
      var i :| 0 <= i < |table| && table[i].pid != 0 && oldest == table[i].txnid;
      assert i in readers;
    }
  }

  // ---------------------------------------------------------------- mdb_page_alloc

  /** A freeDB record: its transaction and its page list, largest first. */
  datatype FreeRecord = FreeRecord(key: nat, pages: seq<nat>)

  datatype AllocResult = Allocated(pgno: nat) | TxnFull | MapFull

  ghost predicate SortedRecords(db: seq<FreeRecord>) {
    && (forall i, j :: 0 <= i < j < |db| ==> db[i].key < db[j].key)
    && (forall i :: 0 <= i < |db| ==>
          && db[i].key >= 1 && StrictlyDescending(db[i].pages)
          && forall k :: 0 <= k < |db[i].pages| ==> db[i].pages[k] <= MAX_ID)
  }

  /** All pages of records lo .. hi-1. */
  ghost function PagesOf(db: seq<FreeRecord>, lo: nat, hi: nat): multiset<nat>
    requires lo <= hi <= |db|
  {
    if lo == hi then multiset{} else PagesOf(db, lo, hi - 1) + multiset(db[hi - 1].pages)
  }

  /** The first record with a key of at least `key`. */
  method SeekRecord(db: seq<FreeRecord>, key: nat) returns (i: nat)
    requires SortedRecords(db)
    ensures i <= |db| && (forall k :: 0 <= k < i ==> db[k].key < key) &&
      (forall k :: i <= k < |db| ==> db[k].key >= key)
  {
    i := 0;
    while i < |db| && db[i].key < key
      invariant 0 <= i <= |db| && forall k :: 0 <= k < i ==> db[k].key < key
    {
      i := i + 1;
    }
  }

  ghost predicate Distinct(m: multiset<nat>) {
    forall x :: m[x] <= 1
  }

  lemma DistinctDescends(s: seq<nat>)
    requires Descending(s) && Distinct(multiset(s))
    ensures StrictlyDescending(s)
  {
    forall i, j | 0 <= i < j < |s| ensures s[i] > s[j] {
      var a, b := s[..j], s[j..];
      assert s == a + b && a[i] == s[i] && b[0] == s[j];
      assert multiset(s) == multiset(a) + multiset(b);
      assert s[i] in multiset(a) && s[j] in multiset(b);
      assert multiset(s)[s[j]] <= 1;
    }
  }

  lemma {:induction false} PagesOfAll(db: seq<FreeRecord>, lo: nat, mid: nat, hi: nat)
    requires lo <= mid <= hi <= |db|
    ensures PagesOf(db, lo, hi) == PagesOf(db, lo, mid) + PagesOf(db, mid, hi)
    decreases hi
  {
    if mid < hi { PagesOfAll(db, lo, mid, hi - 1); }
  }

  /** No record is left, or the next one is not older than the oldest reader, looked up afresh. */
  ghost predicate Exhausted(db: seq<FreeRecord>, readers: seq<ReaderSlot>, txnid: nat, pgoldest: nat, at: nat) {
    at >= |db| || (IsOldestIn(readers, txnid, pgoldest) && pgoldest <= db[at].key)
  }

  /**
    When mdb_page_alloc goes beyond the reclaimed pages: they offer no run, and no further record
    can be taken in, or as many as the retry limit allows have been.
   */
  ghost predicate NoneLeft(num: nat, db: seq<FreeRecord>, readers: seq<ReaderSlot>, txnid: nat, pgoldest: nat,
                           head: seq<nat>, start: nat, at: nat) {
    !HasRun(head, num) && (Exhausted(db, readers, txnid, pgoldest, at) || at - start >= 60 * num)
  }

  /** No record was taken in while those before it offered a run already. */
  ghost predicate Frugal(num: nat, db: seq<FreeRecord>, h0: multiset<nat>, start: nat, at: nat) {
    forall k :: start <= k < at <= |db| ==> NoRun(h0 + PagesOf(db, start, k), num)
  }

  lemma EmptyDescends()
    ensures StrictlyDescending([])
  {}

  lemma FrugalStart(num: nat, db: seq<FreeRecord>, h0: multiset<nat>, start: nat)
    ensures Frugal(num, db, h0, start, start)
  {}

  lemma FrugalStep(num: nat, db: seq<FreeRecord>, readers: seq<ReaderSlot>, txnid: nat, pglast: nat, pgoldest: nat,
                   head: seq<nat>, start: nat, at: nat, h0: multiset<nat>)
    requires Progress(db, readers, txnid, pglast, pgoldest, head, start, at, h0) && Frugal(num, db, h0, start, at)
    requires StrictlyDescending(head) && num >= 1
    ensures !HasRun(head, num) && at < |db| ==> Frugal(num, db, h0, start, at + 1)
  {
    NoRunIff(head, num);
    ProgressOutcome(db, readers, txnid, pglast, pgoldest, head, start, at, h0);
    hide HasRun, NoRun, Progress, StrictlyDescending, PagesOf;
  }

  lemma NoneLeftIf(num: nat, db: seq<FreeRecord>, readers: seq<ReaderSlot>, txnid: nat, pgoldest: nat,
                   head: seq<nat>, start: nat, at: nat)
    requires !HasRun(head, num) && (Exhausted(db, readers, txnid, pgoldest, at) || at - start >= 60 * num)
    ensures NoneLeft(num, db, readers, txnid, pgoldest, head, start, at)
  {}

  /** The allocator's part of the environment and of the write transaction. */
  class Allocator {
    const txnid: nat
    const maxPg: nat
    var hasHead: bool          // me_pghead != NULL
    var pghead: array<nat>
    var pglast: nat
    var pgoldest: nat
    var nextPgno: nat
    var loose: seq<nat>
    var dirtyRoom: nat

    ghost predicate Valid()
      reads this, pghead
    {
      && txnid > 0 && IsIdl(pghead)
      && (hasHead ==> StrictlyDescending(Entries(pghead)))
    }

    ghost function Head(): seq<nat>
      requires Valid()
      reads this, pghead
    {
      if hasHead then Entries(pghead) else []
    }

    /** me_pghead exists and has room for `n` more entries. */
    method Prepare(n: nat)
      requires Valid()
      modifies this
      ensures Valid() && hasHead && (pghead == old(pghead) || fresh(pghead))
      ensures Head() == old(Head()) && pghead[0] + n < pghead.Length
      ensures pglast == old(pglast) && pgoldest == old(pgoldest) && nextPgno == old(nextPgno) &&
        loose == old(loose) && dirtyRoom == old(dirtyRoom)
    {
      if !hasHead {
        pghead := new nat[n + 1](_ => 0);
        hasHead := true;
        assert Entries(pghead) == [];
      } else {
        pghead := Need(pghead, n);
      }
    }

    /** Merge one freeDB record into me_pghead. */
    method TakeIn(rec: FreeRecord)
      requires Valid() && StrictlyDescending(rec.pages) && (forall k :: 0 <= k < |rec.pages| ==> rec.pages[k] <= MAX_ID)
      requires Distinct(multiset(Head()) + multiset(rec.pages))
      modifies this, pghead
      ensures Valid() && hasHead && (pghead == old(pghead) || fresh(pghead))
      ensures multiset(Head()) == old(multiset(Head())) + multiset(rec.pages)
      ensures pglast == rec.key
      ensures pgoldest == old(pgoldest) && nextPgno == old(nextPgno) && loose == old(loose) &&
        dirtyRoom == old(dirtyRoom)
    {
      var idl := RecordArray(rec.pages);
      Prepare(|rec.pages|);
      StrictIsDescending(Entries(pghead));
      StrictIsDescending(rec.pages);
      pglast := rec.key;
      hide StrictlyDescending, Descending, Distinct;
      XMerge(pghead, idl, 0);
      DistinctDescends(Entries(pghead));
    }

    /**
      "Do not fetch more if the record will be too recent": look at the readers once, if the cached
      value says stop.
     */
    method TooRecent(last: nat, foundOld0: bool, readers: seq<ReaderSlot>) returns (stop: bool, foundOld: bool)
      requires txnid > 0 && LowerBound(readers, txnid, pgoldest)
      requires foundOld0 ==> IsOldestIn(readers, txnid, pgoldest)
      modifies this`pgoldest
      ensures (stop <==> pgoldest <= last) && (stop ==> foundOld)
      ensures foundOld ==> IsOldestIn(readers, txnid, pgoldest)
      ensures pgoldest >= old(pgoldest) && LowerBound(readers, txnid, pgoldest)
      ensures pgoldest == old(pgoldest) || IsOldestIn(readers, txnid, pgoldest)
    {
      stop, foundOld := pgoldest <= last, foundOld0;
      if stop {
        if !foundOld {
          var oldest := FindOldest(txnid, readers);
          pgoldest := oldest;
          foundOld := true;
        }
        stop := pgoldest <= last;
      }
    }

    /** Take in the next record, unless there is none or it is too recent. */
    method FetchNext(
        db: seq<FreeRecord>, cursor: nat, foundOld0: bool, readers: seq<ReaderSlot>, ghost start: nat,
        ghost h0: multiset<nat>)
      returns (took: bool, foundOld: bool)
      requires Valid() && Progress(db, readers, txnid, pglast, pgoldest, Head(), start, cursor, h0)
      requires foundOld0 ==> IsOldestIn(readers, txnid, pgoldest)
      modifies this, pghead
      ensures foundOld ==> IsOldestIn(readers, txnid, pgoldest)
      ensures !took ==> Exhausted(db, readers, txnid, pgoldest, cursor)
      ensures Valid() && (pghead == old(pghead) || fresh(pghead))
      ensures Progress(db, readers, txnid, pglast, pgoldest, Head(), start, if took then cursor + 1 else cursor, h0)
      ensures took ==> cursor < |db|
      ensures !took ==> Head() == old(Head()) && pglast == old(pglast)
      ensures pgoldest >= old(pgoldest) && nextPgno == old(nextPgno) && loose == old(loose) &&
        dirtyRoom == old(dirtyRoom)
    {
      ProgressFacts(db, readers, txnid, pglast, pgoldest, Head(), start, cursor, h0);
      hide Progress, LowerBound, IsOldestIn, Distinct, StrictlyDescending;
      ghost var head, oldest0 := Head(), pgoldest;
      var stop;
      took := false;
      stop, foundOld := TooRecent(pglast + 1, foundOld0, readers);
      if !stop && cursor < |db| {
        stop, foundOld := TooRecent(db[cursor].key, foundOld, readers);
        ProgressRefresh(db, readers, txnid, pglast, oldest0, pgoldest, head, start, cursor, h0);
        if !stop {
          ghost var pglast0 := pglast;
          TakeIn(db[cursor]);
          took := true;
          ProgressTake(db, readers, txnid, pglast0, pgoldest, head, Head(), start, cursor, h0);
        }
      } else {
        ProgressRefresh(db, readers, txnid, pglast, oldest0, pgoldest, head, start, cursor, h0);
      }
    }

    /** One round of the coalescing loop: look for a run, else take in one more record. */
    method Round(
        num: nat, db: seq<FreeRecord>, cursor: nat, foundOld0: bool, retry0: int, readers: seq<ReaderSlot>,
        ghost start: nat, ghost h0: multiset<nat>)
      returns (i: nat, took: bool, foundOld: bool, retry: int)
      requires Valid() && num >= 1 && Progress(db, readers, txnid, pglast, pgoldest, Head(), start, cursor, h0)
      requires foundOld0 ==> IsOldestIn(readers, txnid, pgoldest)
      modifies this, pghead
      ensures foundOld ==> IsOldestIn(readers, txnid, pgoldest)
      ensures Valid() && (pghead == old(pghead) || fresh(pghead))
      ensures Progress(db, readers, txnid, pglast, pgoldest, Head(), start, if took then cursor + 1 else cursor, h0)
      ensures took ==> cursor < |db| && i == 0 && !HasRun(old(Head()), num)
      ensures !took ==> pglast == old(pglast)
      ensures pgoldest >= old(pgoldest) && nextPgno == old(nextPgno) && loose == old(loose) &&
        dirtyRoom == old(dirtyRoom)
      ensures i != 0 ==> hasHead && i <= pghead[0] && LastRunEndsAt(Head(), i - 1, num)
      ensures !took && i == 0 ==> !HasRun(Head(), num) && (retry < 0 || Exhausted(db, readers, txnid, pgoldest, cursor))
      ensures retry == retry0 || retry == retry0 - 1
    {
      hide Progress, StrictlyDescending, HasRun, LastRunEndsAt, IsOldestIn, Exhausted;
      i, took, foundOld, retry := 0, false, foundOld0, retry0;
      var mopLen := if hasHead then pghead[0] else 0;
      if mopLen > num - 1 {
        i := FindRun(pghead, num);
        if i == 0 {
          retry := retry - 1;
        }
      } else {
        ShortHasNoRun(Head(), num);
      }
      if i == 0 && (mopLen <= num - 1 || retry >= 0) {
        took, foundOld := FetchNext(db, cursor, foundOld, readers, start, h0);
      }
    }

    /**
      The coalescing loop of mdb_page_alloc: look for a run, and take in one more record at
      a time while the records are older than the oldest reader.  Returns the position of
      the run, or 0.
     */
    method Coalesce(
        num: nat, db: seq<FreeRecord>, readers: seq<ReaderSlot>, ghost start: nat, ghost h0: multiset<nat>)
      returns (i: nat, ghost at: nat)
      requires Valid() && num >= 1 && Progress(db, readers, txnid, pglast, pgoldest, Head(), start, start, h0)
      modifies this, pghead
      ensures Valid() && (pghead == old(pghead) || fresh(pghead))
      ensures Progress(db, readers, txnid, pglast, pgoldest, Head(), start, at, h0)
      ensures pgoldest >= old(pgoldest) && nextPgno == old(nextPgno) && loose == old(loose) &&
        dirtyRoom == old(dirtyRoom)
      ensures i != 0 ==> hasHead && i <= pghead[0] && LastRunEndsAt(Head(), i - 1, num)
      ensures i == 0 ==> NoneLeft(num, db, readers, txnid, pgoldest, Head(), start, at)
      ensures Frugal(num, db, h0, start, at) && (at == start ==> pglast == old(pglast))
    {
      var cursor := SeekRecord(db, pglast + 1);
      SeekUnique(db, pglast, start, cursor);
      hide *;
      i, at := CoalesceFrom(num, db, readers, cursor, h0);
    }

    /** The loop itself, with the freeDB cursor at the first record not taken in. */
    method CoalesceFrom(num: nat, db: seq<FreeRecord>, readers: seq<ReaderSlot>, start: nat, ghost h0: multiset<nat>)
      returns (i: nat, ghost at: nat)
      requires Valid() && num >= 1 && Progress(db, readers, txnid, pglast, pgoldest, Head(), start, start, h0)
      modifies this, pghead
      ensures Valid() && (pghead == old(pghead) || fresh(pghead))
      ensures Progress(db, readers, txnid, pglast, pgoldest, Head(), start, at, h0)
      ensures pgoldest >= old(pgoldest) && nextPgno == old(nextPgno) && loose == old(loose) &&
        dirtyRoom == old(dirtyRoom)
      ensures i != 0 ==> hasHead && i <= pghead[0] && LastRunEndsAt(Head(), i - 1, num)
      ensures i == 0 ==> NoneLeft(num, db, readers, txnid, pgoldest, Head(), start, at)
      ensures Frugal(num, db, h0, start, at) && (at == start ==> pglast == old(pglast))
    {
      hide Progress, StrictlyDescending, HasRun, LastRunEndsAt, IsOldestIn, Exhausted, NoneLeft, Frugal;
      var retry, foundOld, took, cursor := num * 60, false, true, start;
      FrugalStart(num, db, h0, start);
      i := 0;
      ghost var oldest, next, ls, room := pgoldest, nextPgno, loose, dirtyRoom;
      while took
        invariant Valid() && (pghead == old(pghead) || fresh(pghead))
        invariant start <= cursor && Progress(db, readers, txnid, pglast, pgoldest, Head(), start, cursor, h0)
        invariant pgoldest >= oldest && nextPgno == next && loose == ls && dirtyRoom == room
        invariant 60 * num - retry <= cursor - start + if took then 0 else 1
        invariant i != 0 ==> !took && hasHead && i <= pghead[0] && LastRunEndsAt(Head(), i - 1, num)
        invariant foundOld ==> IsOldestIn(readers, txnid, pgoldest)
        invariant Frugal(num, db, h0, start, cursor) && (cursor == start ==> pglast == old(pglast))
        invariant !took && i == 0 ==>
          !HasRun(Head(), num) && (retry < 0 || Exhausted(db, readers, txnid, pgoldest, cursor))
        decreases |db| - cursor, took
      {
        ghost var head := Head();
        EmptyDescends();
        FrugalStep(num, db, readers, txnid, pglast, pgoldest, head, start, cursor, h0);
        i, took, foundOld, retry := Round(num, db, cursor, foundOld, retry, readers, start, h0);
        if took {
          cursor := cursor + 1;
        }
      }
      at := cursor;
      if i == 0 { NoneLeftIf(num, db, readers, txnid, pgoldest, Head(), start, at); }
    }

    /** Take the run ending at position `i` out of the reclaimed list. */
    method TakeRun(i: nat, num: nat) returns (pgno: nat)
      requires Valid() && hasHead && 1 <= num <= i <= pghead[0] && LastRunEndsAt(Head(), i - 1, num)
      modifies pghead
      ensures Valid() && multiset(Head()) + multiset(RangeDown(pgno, num)) == old(multiset(Head()))
      ensures IsLowestRun(old(multiset(Head())), pgno, num)
    {
      RunRemoved(Entries(pghead), i, num);
      LastIsLowest(Entries(pghead), i - 1, num);
      hide StrictlyDescending, RunEndsAt, IsLowestRun, LastRunEndsAt;
      pgno := pghead[i];
      RemoveRun(pghead, i, num);
    }

    /** The part of mdb_page_alloc after the loose list: from the reclaimed list, or from the end of the file. */
    method AllocRun(
        num: nat, db: seq<FreeRecord>, readers: seq<ReaderSlot>, ghost start: nat)
      returns (res: AllocResult, ghost at: nat)
      requires Valid() && num >= 1 && dirtyRoom > 0
      requires Progress(db, readers, txnid, pglast, pgoldest, Head(), start, start, multiset(Head()))
      modifies this, pghead
      ensures Valid() && start <= at <= |db| && loose == old(loose) && !res.TxnFull?
      ensures (forall k :: start <= k < at ==> db[k].key < pgoldest) && LowerBound(readers, txnid, pgoldest)
      ensures res.Allocated? ==> dirtyRoom == old(dirtyRoom) - 1
      ensures pglast == if at == start then old(pglast) else db[at - 1].key
      ensures res.Allocated? && nextPgno == old(nextPgno) ==>
        && multiset(Head()) + multiset(RangeDown(res.pgno, num)) == old(multiset(Head())) + PagesOf(db, start, at)
        && IsLowestRun(old(multiset(Head())) + PagesOf(db, start, at), res.pgno, num)
      ensures Frugal(num, db, old(multiset(Head())), start, at)
      ensures res.Allocated? && nextPgno != old(nextPgno) ==>
        res.pgno == old(nextPgno) && nextPgno == old(nextPgno) + num < maxPg &&
          multiset(Head()) == old(multiset(Head())) + PagesOf(db, start, at)
      ensures res.MapFull? ==> nextPgno == old(nextPgno) && old(nextPgno) + num >= maxPg
      ensures res.MapFull? || nextPgno != old(nextPgno) ==>
        NoneLeft(num, db, readers, txnid, pgoldest, Head(), start, at)
    {
      ghost var h0 := multiset(Head());
      var i;
      i, at := Coalesce(num, db, readers, start, h0);
      ProgressOutcome(db, readers, txnid, pglast, pgoldest, Head(), start, at, h0);
      if i != 0 { RunNeedsLength(Head(), i, num); }
      hide *;
      if i != 0 {
        var pgno := TakeRun(i, num);
        res := Allocated(pgno);
      } else {
        if nextPgno + num >= maxPg {
          return MapFull, at;
        }
        res := Allocated(nextPgno);
        nextPgno := nextPgno + num;
      }
      dirtyRoom := dirtyRoom - 1;
    }

    /**
      mdb_page_alloc.  A single page comes off the loose list if there is one.  Otherwise the
      pages are consecutive and come out of the reclaimed list, topped up with records older
      than every reader, or from the end of the file; no page number is lost or duplicated.
     */
    method Alloc(
        num: nat, db: seq<FreeRecord>, readers: seq<ReaderSlot>, ghost start: nat)
      returns (res: AllocResult, ghost at: nat)
      requires Valid() && num >= 1
      requires Progress(db, readers, txnid, pglast, pgoldest, Head(), start, start, multiset(Head()))
      modifies this, pghead
      ensures Valid() && start <= at <= |db|
      ensures num == 1 && old(loose) != [] ==>
        res == Allocated(old(loose)[0]) && loose == old(loose)[1..] && Head() == old(Head()) &&
          nextPgno == old(nextPgno) && dirtyRoom == old(dirtyRoom)
      ensures !(num == 1 && old(loose) != []) ==> loose == old(loose) && (res.TxnFull? <==> old(dirtyRoom) == 0)
      ensures !(num == 1 && old(loose) != []) && old(dirtyRoom) > 0 ==>
        && (forall k :: start <= k < at ==> db[k].key < pgoldest) && LowerBound(readers, txnid, pgoldest)
        && Frugal(num, db, old(multiset(Head())), start, at)
        && pglast == (if at == start then old(pglast) else db[at - 1].key)
        && (res.Allocated? ==> dirtyRoom == old(dirtyRoom) - 1)
        && (|| (res.Allocated? && nextPgno == old(nextPgno)
                && multiset(Head()) + multiset(RangeDown(res.pgno, num)) ==
                  old(multiset(Head())) + PagesOf(db, start, at)
                && IsLowestRun(old(multiset(Head())) + PagesOf(db, start, at), res.pgno, num))
            || (res == Allocated(old(nextPgno)) && nextPgno == old(nextPgno) + num < maxPg
                && multiset(Head()) == old(multiset(Head())) + PagesOf(db, start, at)
                && NoneLeft(num, db, readers, txnid, pgoldest, Head(), start, at))
            || (res.MapFull? && nextPgno == old(nextPgno) && old(nextPgno) + num >= maxPg
                && NoneLeft(num, db, readers, txnid, pgoldest, Head(), start, at)))
    {
      at := start;
      ProgressOutcome(db, readers, txnid, pglast, pgoldest, Head(), start, start, multiset(Head()));
      hide Progress, LowerBound, PagesOf, NoneLeft, IsLowestRun, Frugal;
      if num == 1 && loose != [] {
        res := Allocated(loose[0]);
        loose := loose[1..];
      } else if dirtyRoom == 0 {
        res := TxnFull;
      } else {
        res, at := AllocRun(num, db, readers, start);
      }
    }
  }

  lemma RunNeedsLength(e: seq<nat>, i: nat, num: nat)
    requires LastRunEndsAt(e, i - 1, num)
    ensures num <= i
  {}

  lemma ProgressOutcome(db: seq<FreeRecord>, readers: seq<ReaderSlot>, txnid: nat, pglast: nat, pgoldest: nat,
                        head: seq<nat>, start: nat, at: nat, h0: multiset<nat>)
    requires Progress(db, readers, txnid, pglast, pgoldest, head, start, at, h0)
    ensures start <= at <= |db| && multiset(head) == h0 + PagesOf(db, start, at)
    ensures at > start ==> db[at - 1].key == pglast
    ensures (forall k :: start <= k < at ==> db[k].key < pgoldest) && LowerBound(readers, txnid, pgoldest)
  {}

  /** Taking out a run leaves a strictly descending list without exactly those pages. */
  lemma DescendingWithout(e: seq<nat>, i: nat, j: nat)
    requires StrictlyDescending(e) && i <= j <= |e|
    ensures StrictlyDescending(e[..i] + e[j..])
  {}

  lemma RunRemoved(e: seq<nat>, i: nat, num: nat)
    requires StrictlyDescending(e) && 1 <= num <= i <= |e| && RunEndsAt(e, i - 1, num)
    ensures StrictlyDescending(e[..i - num] + e[i..])
    ensures multiset(e[..i - num] + e[i..]) + multiset(RangeDown(e[i - 1], num)) == multiset(e)
  {
    var run := e[i - num..i];
    assert forall q :: 0 <= q < num ==> run[q] == e[i - num + q];
    assert run == RangeDown(e[i - 1], num);
    hide StrictlyDescending, RangeDown, RunEndsAt;
    assert e == e[..i - num] + run + e[i..];
    DescendingWithout(e, i - num, i);
  }

  /**
    Where the coalescing stands: records start .. at-1 are in the list, all of them older
    than any reader; the rest has not been looked at and shares no page with the list.
   */
  ghost predicate Progress(db: seq<FreeRecord>, readers: seq<ReaderSlot>, txnid: nat, pglast: nat, pgoldest: nat,
                           head: seq<nat>, start: nat, at: nat, h0: multiset<nat>) {
    && start <= at <= |db| && SortedRecords(db)
    && (forall k :: 0 <= k < at ==> db[k].key <= pglast) && (forall k :: at <= k < |db| ==> db[k].key > pglast)
    && (at > start ==> db[at - 1].key == pglast)
    && Distinct(multiset(head) + PagesOf(db, at, |db|))
    && multiset(head) == h0 + PagesOf(db, start, at)
    && (forall k :: start <= k < at ==> db[k].key < pgoldest)
    && LowerBound(readers, txnid, pgoldest)
  }

  lemma ProgressFacts(db: seq<FreeRecord>, readers: seq<ReaderSlot>, txnid: nat, pglast: nat, pgoldest: nat,
                      head: seq<nat>, start: nat, at: nat, h0: multiset<nat>)
    requires Progress(db, readers, txnid, pglast, pgoldest, head, start, at, h0)
    ensures LowerBound(readers, txnid, pgoldest)
    ensures at < |db| ==>
      && StrictlyDescending(db[at].pages) && (forall k :: 0 <= k < |db[at].pages| ==> db[at].pages[k] <= MAX_ID)
      && Distinct(multiset(head) + multiset(db[at].pages))
  {
    if at < |db| { RecordFacts(db, at, multiset(head)); }
  }

  lemma ProgressRefresh(
      db: seq<FreeRecord>, readers: seq<ReaderSlot>, txnid: nat, pglast: nat, pgoldest: nat, pgoldest': nat,
      head: seq<nat>, start: nat, at: nat, h0: multiset<nat>)
    requires Progress(db, readers, txnid, pglast, pgoldest, head, start, at, h0)
    requires pgoldest' >= pgoldest && LowerBound(readers, txnid, pgoldest')
    ensures Progress(db, readers, txnid, pglast, pgoldest', head, start, at, h0)
  {}

  lemma ProgressTake(db: seq<FreeRecord>, readers: seq<ReaderSlot>, txnid: nat, pglast: nat, pgoldest: nat,
                     head: seq<nat>, head': seq<nat>, start: nat, at: nat, h0: multiset<nat>)
    requires Progress(db, readers, txnid, pglast, pgoldest, head, start, at, h0)
    requires at < |db| && db[at].key < pgoldest && multiset(head') == multiset(head) + multiset(db[at].pages)
    ensures Progress(db, readers, txnid, db[at].key, pgoldest, head', start, at + 1, h0)
  {
    hide Distinct, SortedRecords, LowerBound, PagesOf;
    var h := multiset(head);
    RecordFacts(db, at, h);
    TakenSum(db, start, at, h, h0);
    assert multiset(head') == h + multiset(db[at].pages);
  }

  lemma TakenSum(db: seq<FreeRecord>, start: nat, at: nat, head: multiset<nat>, h0: multiset<nat>)
    requires start <= at < |db| && head == h0 + PagesOf(db, start, at)
    ensures head + multiset(db[at].pages) == h0 + PagesOf(db, start, at + 1)
  {}

  lemma SeekUnique(db: seq<FreeRecord>, pglast: nat, a: nat, b: nat)
    requires a <= |db| && b <= |db|
    requires (forall k :: 0 <= k < a ==> db[k].key <= pglast) && (forall k :: a <= k < |db| ==> db[k].key > pglast)
    requires (forall k :: 0 <= k < b ==> db[k].key < pglast + 1) &&
      (forall k :: b <= k < |db| ==> db[k].key >= pglast + 1)
    ensures a == b
  {
    assert a < |db| ==> db[a].key > pglast;
    assert b < |db| ==> db[b].key >= pglast + 1;
  }

  lemma ShortHasNoRun(e: seq<nat>, num: nat)
    ensures |e| < num ==> !HasRun(e, num)
  {}

  lemma PagesOfNone(db: seq<FreeRecord>, lo: nat)
    requires lo <= |db|
    ensures PagesOf(db, lo, lo) == multiset{}
  {}

  lemma PagesOfNext(db: seq<FreeRecord>, lo: nat, hi: nat)
    requires lo < hi <= |db|
    ensures PagesOf(db, lo, hi) == PagesOf(db, lo, hi - 1) + multiset(db[hi - 1].pages)
  {}

  /** The next record is well formed, and its pages are new to the list. */
  lemma RecordFacts(db: seq<FreeRecord>, at: nat, head: multiset<nat>)
    requires SortedRecords(db) && at < |db| && Distinct(head + PagesOf(db, at, |db|))
    ensures StrictlyDescending(db[at].pages) && forall k :: 0 <= k < |db[at].pages| ==> db[at].pages[k] <= MAX_ID
    ensures Distinct(head + multiset(db[at].pages))
    ensures Distinct(head + multiset(db[at].pages) + PagesOf(db, at + 1, |db|))
    ensures (forall k :: 0 <= k < at ==> db[k].key < db[at].key) && forall k :: at < k < |db| ==> db[k].key > db[at].key
  {
    assert head + multiset(db[at].pages) + PagesOf(db, at + 1, |db|) == head + PagesOf(db, at, |db|) by {
      PagesOfAll(db, at, at + 1, |db|);
      PagesOfNext(db, at, at + 1);
      PagesOfNone(db, at);
    }
    hide Distinct, PagesOf;
    DistinctPart(head + multiset(db[at].pages), PagesOf(db, at + 1, |db|));
  }

  lemma DistinctPart(a: multiset<nat>, b: multiset<nat>)
    requires Distinct(a + b)
    ensures Distinct(a)
  {
    forall x ensures a[x] <= 1 { assert (a + b)[x] <= 1; }
  }

  /** What a cached oldest must satisfy: no reader is older. */
  ghost predicate LowerBound(readers: seq<ReaderSlot>, txnid: nat, o: nat) {
    o <= txnid - 1 && forall i :: 0 <= i < |readers| && readers[i].pid != 0 ==> o <= readers[i].txnid
  }

  /** `o` is what mdb_find_oldest returns. */
  ghost predicate IsOldestIn(readers: seq<ReaderSlot>, txnid: nat, o: nat) {
    && o <= txnid - 1
    && (forall i :: 0 <= i < |readers| && readers[i].pid != 0 ==> o <= readers[i].txnid)
    && (o == txnid - 1 || exists i :: 0 <= i < |readers| && readers[i].pid != 0 && o == readers[i].txnid)
  }

  lemma StrictIsDescending(s: seq<nat>)
    requires StrictlyDescending(s)
    ensures Descending(s)
  {}

  /** A freeDB record as stored: its length, then its pages. */
  method RecordArray(pages: seq<nat>) returns (idl: array<nat>)
    ensures fresh(idl) && IsListAt(idl, 0) && idl[0] == |pages| && ListAt(idl, 0) == pages
  {
    var n := |pages|;
    idl := new nat[n + 1](i requires 0 <= i <= n => if i == 0 then n else pages[i - 1]);
  }

  // ---------------------------------------------------------------- returning loose pages

  /** mdb_midl_sort applied to a list in the tail of a buffer. */
  method SortAt(ids: array<nat>, off: nat)
    requires IsListAt(ids, off) && ids[off] < 0x8000_0000
    modifies ids
    ensures IsListAt(ids, off) && ids[off] == old(ids[off])
    ensures Descending(ListAt(ids, off)) && multiset(ListAt(ids, off)) == old(multiset(ListAt(ids, off)))
    ensures ids[..off] == old(ids[..off])
  {
    var n := ids[off];
    var list := new nat[n + 1](i requires 0 <= i <= n reads ids requires off + i < ids.Length => ids[off + i]);
    assert Entries(list) == ListAt(ids, off);
    Sort(list);
    forall i | 0 <= i <= n {
      ids[off + i] := list[i];
    }
    assert ListAt(ids, off) == Entries(list);
  }

  /**
    mdb_freelist_save: loose page numbers go back to me_pghead by way of a temporary list in
    the tail of the same buffer.
   */
  method ReturnLoose(mop: array<nat>, loose: seq<nat>) returns (r: array<nat>)
    requires IsIdl(mop) && Descending(Entries(mop)) && |loose| < 0x8000_0000
    requires forall i :: 0 <= i < |loose| ==> loose[i] <= MAX_ID
    modifies mop
    ensures IsIdl(r) && Descending(Entries(r))
    ensures multiset(Entries(r)) == old(multiset(Entries(mop))) + multiset(loose)
  {
    hide Descending;
    var count := |loose|;
    r := Need(mop, 2 * count + 1);
    var off := r.Length - 1 - count;
    SortedTail(r, off, loose);
    ListBounded(ListAt(r, off), loose);
    XMerge(r, r, off);
  }

  /** The loose pages, sorted, behind the list. */
  method SortedTail(r: array<nat>, off: nat, loose: seq<nat>)
    requires IsIdl(r) && r[0] < off && off + |loose| < r.Length && |loose| < 0x8000_0000
    modifies r
    ensures IsIdl(r) && r[0] == old(r[0]) && Entries(r) == old(Entries(r))
    ensures IsListAt(r, off) && r[off] == |loose| && Descending(ListAt(r, off)) &&
      multiset(ListAt(r, off)) == multiset(loose)
  {
    ghost var n := r[0];
    PrefixSlice(r[..], off, 1, n + 1);
    StoreList(r, off, loose);
    SortAt(r, off);
    PrefixSlice(r[..], off, 1, n + 1);
  }

  lemma ListBounded(s: seq<nat>, t: seq<nat>)
    requires multiset(s) == multiset(t) && forall i :: 0 <= i < |t| ==> t[i] <= MAX_ID
    ensures forall i :: 0 <= i < |s| ==> s[i] <= MAX_ID
  {
    forall i | 0 <= i < |s| ensures s[i] <= MAX_ID {
      assert s[i] in multiset(t);
      var j :| 0 <= j < |t| && t[j] == s[i];
    }
  }

  method StoreList(r: array<nat>, off: nat, list: seq<nat>)
    requires off + |list| < r.Length
    modifies r
    ensures IsListAt(r, off) && r[off] == |list| && ListAt(r, off) == list
    ensures r[..off] == old(r[..off])
  {
    var count := 0;
    while count < |list|
      invariant 0 <= count <= |list|
      invariant forall k :: off < k <= off + count ==> r[k] == list[k - off - 1]
      invariant r[..off] == old(r[..off])
    {
      count := count + 1;
      r[off + count] := list[count - 1];
    }
    r[off] := count;
  }

  // ---------------------------------------------------------------- allocation as steps of the recycler

  ghost predicate Represents(db: seq<FreeRecord>, freedb: Recycler.FreeDb) {
    && (forall i :: 0 <= i < |db| ==> db[i].key in freedb && freedb[db[i].key] == multiset(db[i].pages))
    && (forall k :: k in freedb ==> exists i :: 0 <= i < |db| && db[i].key == k)
  }

  lemma LaterIsLarger(db: seq<FreeRecord>, i: nat, j: nat)
    requires SortedRecords(db) && i <= j < |db|
    ensures db[i].key <= db[j].key
  {}

  /** The record taken in next is one the recycler's Reclaim step allows. */
  lemma TakeInIsReclaim(w: Recycler.Work, db: seq<FreeRecord>, at: nat, oldest: nat)
    requires Represents(db, w.freedb) && SortedRecords(db) && at < |db|
    requires (forall k :: 0 <= k < at ==> db[k].key <= w.pglast) && db[at].key > w.pglast && db[at].key < oldest
    ensures Recycler.CanReclaim(w, oldest, db[at].key)
    ensures Recycler.Reclaimed(w, db[at].key).pghead == w.pghead + multiset(db[at].pages)
  {
    hide StrictlyDescending;
    forall j | j in w.freedb && w.pglast < j ensures db[at].key <= j {
      var i :| 0 <= i < |db| && db[i].key == j;
      assert i >= at;
      LaterIsLarger(db, at, i);
    }
  }

  /** `num` new pages from `pgno` on, which refer to nothing. */
  function NewPages(pgno: nat, num: nat): (r: map<nat, Recycler.Page>)
    ensures r.Keys == Recycler.Run(pgno, num) && Recycler.Blank(r)
  {
    map p | p in Recycler.Run(pgno, num) :: Recycler.Page({}, [])
  }

  lemma RunWithin(m: multiset<nat>, pgno: nat, num: nat)
    requires AllIn(m, pgno, num)
    ensures multiset(Recycler.Run(pgno, num)) <= m
  {
    forall p ensures multiset(Recycler.Run(pgno, num))[p] <= m[p] {
      if p in Recycler.Run(pgno, num) { assert p in m; }
    }
  }

  /**
    The three outcomes of an allocation are allocation steps of the recycler: they take the loose
    page, the run, or the next page numbers, and nothing else.
   */
  lemma AllocIsStep(w: Recycler.Work, pgno: nat, num: nat)
    requires num >= 1
    ensures num == 1 && w.loose != [] ==>
      var op := Recycler.AllocLoose([]);
      Recycler.CanDo(w, op) && Recycler.Done(w, op).loose == w.loose[1..] && Recycler.Done(w, op).pghead == w.pghead
        && Recycler.Done(w, op).next == w.next
    ensures AllIn(w.pghead, pgno, num) ==>
      var op := Recycler.AllocHead(pgno, NewPages(pgno, num));
      Recycler.CanDo(w, op) && Recycler.Done(w, op).pghead == w.pghead - multiset(Recycler.Run(pgno, num))
        && Recycler.Done(w, op).loose == w.loose && Recycler.Done(w, op).next == w.next
    ensures var op := Recycler.AllocNew(NewPages(w.next, num));
      Recycler.CanDo(w, op) && Recycler.Done(w, op).next == w.next + num
        && Recycler.Done(w, op).loose == w.loose && Recycler.Done(w, op).pghead == w.pghead
  {
    hide Recycler.Run, Recycler.Blank, NewPages;
    NewPagesCount(pgno, num);
    NewPagesCount(w.next, num);
    if AllIn(w.pghead, pgno, num) { RunWithin(w.pghead, pgno, num); }
  }

  lemma NewPagesCount(pgno: nat, num: nat)
    requires num >= 1
    ensures |NewPages(pgno, num)| == num && NewPages(pgno, num) != map[]
  {
    assert |NewPages(pgno, num)| == |NewPages(pgno, num).Keys|;
    assert pgno in NewPages(pgno, num);
  }
}
