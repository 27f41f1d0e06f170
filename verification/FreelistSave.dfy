/**
  mdb_freelist_save: writing the reclaimed page list back into the freeDB while the
  writing itself keeps changing that list.

  The freeDB is seen as its record sizes.  What a Put, a deletion or a search that
  touches pages does to the lists is not under the loop's control: it is given by a
  finite `script` of disturbances, after which nothing changes any more.
 */
module FreelistSave {
  import opened IdLists
  import Recycler
  import RecyclerProofs
  import SplitPoint

  /** New lengths and the last consumed record, after some operation on the freeDB. */
  datatype Disturbance = Disturbance(headLen: nat, looseCount: nat, freeLen: nat, pglast: nat)

  /** Total room of the records with keys lo .. hi. */
  ghost function Rooms(db: map<nat, nat>, lo: nat, hi: nat): nat
    requires forall k :: lo <= k <= hi ==> k in db
    decreases hi + 1 - lo
  {
    if lo > hi then 0 else db[lo] + Rooms(db, lo + 1, hi)
  }

  lemma {:induction false} RoomsSame(db: map<nat, nat>, db': map<nat, nat>, lo: nat, hi: nat)
    requires forall k :: lo <= k <= hi ==> k in db && k in db' && db[k] == db'[k]
    ensures Rooms(db, lo, hi) == Rooms(db', lo, hi)
    decreases hi + 1 - lo
  {
    if lo <= hi { RoomsSame(db, db', lo + 1, hi); }
  }

  lemma {:induction false} TwiceOrMore(q: nat, d: nat)
    requires d > 1
    ensures 2 * q <= d * q
  {
    if q > 0 {
      TwiceOrMore(q - 1, d);
      assert d * q == d * (q - 1) + d;
    }
  }

  lemma HalfOrLess(need: nat, d: nat)
    requires d > 1
    ensures 2 * (need / d) <= need
  {
    TwiceOrMore(need / d, d);
  }

  lemma SmallRemainder(q: nat, m: nat)
    requires m >= 1
    ensures 0 <= q % m <= q && (q < m ==> q % m == q)
  {
    if q >= m { assert q % m < m; }
  }

  /** The rounding of a multi-page record's length never exceeds what is needed. */
  lemma RoundedRoom(need: nat, headId: nat, maxfree: nat)
    requires need > maxfree >= 1 && headId > 1
    ensures var q := need / headId; maxfree <= q + maxfree - q % (maxfree + 1) <= need
  {
    HalfOrLess(need, headId);
    SmallRemainder(need / headId, maxfree + 1);
  }

  /** Rounded up to one less than a multiple of `m`. */
  lemma RoundedUp(q: nat, m: nat)
    requires m >= 1
    ensures q + (m - 1) - q % m + 1 == (q / m + 1) * m
  {
    var k := q / m;
    assert q == k * m + q % m;
    assert (k + 1) * m == k * m + m;
  }

  /** Length of the record to (re)write when `need` page numbers have no room yet. */
  function NextRoom(need: int, headId: nat, maxfree: nat): (room: nat)
    requires maxfree >= 1
    ensures need >= 0 ==> room <= need
    ensures need > maxfree && headId > 1 ==> room >= maxfree
    ensures need < 0 ==> room == 0
    ensures 0 <= need && !(need > maxfree && headId > 1) ==> room == need
  {
    if need > maxfree && headId > 1 then
      RoundedRoom(need, headId, maxfree);
      need / headId + maxfree - need / headId % (maxfree + 1)
    else if need < 0 then 0
    else need
  }

  /**
    The length written when several records are needed: an equal share for each key that is left,
    rounded up so that with its count it fills whole runs of maxfree + 1 numbers.
   */
  lemma NextRoomExact(need: nat, headId: nat, maxfree: nat)
    requires need > maxfree >= 1 && headId > 1
    ensures NextRoom(need, headId, maxfree) + 1 == (need / headId / (maxfree + 1) + 1) * (maxfree + 1)
  {
    RoundedUp(need / headId, maxfree + 1);
  }

  /** Records up to `pglast` are gone, except those reserved: keys headId .. pglast, with `totalRoom` in all. */
  ghost predicate Reserved(db: map<nat, nat>, pglast: nat, headId: nat, headRoom: nat, totalRoom: nat) {
    && headId <= pglast && (pglast > 0 ==> headId >= 1)
    && (|| (totalRoom == headRoom == 0 && headId == pglast && forall k :: k in db ==> k > pglast)
        || ((forall k :: k in db && k <= pglast <==> headId <= k <= pglast)
            && headRoom == db[headId] && totalRoom == Rooms(db, headId, pglast)))
  }

  lemma ReservedSame(db: map<nat, nat>, db': map<nat, nat>, pglast: nat, headId: nat, headRoom: nat, totalRoom: nat)
    requires Reserved(db, pglast, headId, headRoom, totalRoom)
    requires forall k :: k <= pglast ==> (k in db <==> k in db') && (k in db ==> db[k] == db'[k])
    ensures Reserved(db', pglast, headId, headRoom, totalRoom)
  {
    if headId in db { RoomsSame(db, db', headId, pglast); }
  }

  /** What the loop may rewrite: the head record, or a new one below it. */
  lemma ReservedHead(db: map<nat, nat>, pglast: nat, headId: nat, headRoom: nat, totalRoom: nat)
    requires Reserved(db, pglast, headId, headRoom, totalRoom) && 0 !in db
    ensures headId <= pglast && (pglast > 0 ==> headId >= 1)
    ensures headRoom <= totalRoom && (pglast == 0 ==> totalRoom == 0)
    ensures forall k :: headId < k <= pglast ==> k in db
    ensures forall k :: k in db && k <= pglast ==> headId <= k
    ensures totalRoom != 0 ==> headId in db && totalRoom == Rooms(db, headId, pglast)
    ensures totalRoom == headRoom + Rooms(db, headId + 1, pglast)
    ensures headId in db ==> db[headId] == headRoom
    ensures headId !in db ==> headRoom == 0 && totalRoom == 0
    ensures headRoom > 0 ==> totalRoom == Rooms(db, headId, pglast)
  {}

  /** Records above `pglast`, other than the one of this transaction, are the same. */
  ghost predicate SameAbove(db: map<nat, nat>, db': map<nat, nat>, pglast: nat, txnid: nat) {
    forall k :: pglast < k && k != txnid ==> (k in db' <==> k in db) && (k in db ==> db'[k] == db[k])
  }

  lemma SameStill(db0: map<nat, nat>, db1: map<nat, nat>, db2: map<nat, nat>, p1: nat, p2: nat, txnid: nat)
    requires SameAbove(db0, db1, p1, txnid) && SameAbove(db1, db2, p2, txnid) && p1 <= p2
    ensures SameAbove(db0, db2, p2, txnid)
  {}

  lemma SameStart(db: map<nat, nat>, pglast: nat, txnid: nat)
    ensures SameAbove(db, db, pglast, txnid)
  {}

  class Saver {
    const txnid: nat
    const maxfree: nat          // me_maxfree_1pg
    var db: map<nat, nat>       // freeDB: key -> room for that many page numbers
    var envPglast: nat          // me_pglast
    var headLen: nat            // me_pghead[0], or 0
    var looseCount: nat         // mt_loose_count
    var freeLen: nat            // mt_free_pgs[0]
    var script: seq<Disturbance>

    ghost function Now(): Disturbance
      reads this
    {
      Disturbance(headLen, looseCount, freeLen, envPglast)
    }

    ghost predicate Consistent()
      reads this
    {
      && maxfree >= 1 && envPglast < txnid && 0 !in db
      && (envPglast == 0 ==> headLen == 0 && looseCount == 0)
    }

    /**
      The next disturbance, provided it is one the freeDB code can cause: pages never leave
      mt_free_pgs, records are consumed in order and before txnid, and a reclaimed page
      implies a consumed record.
     */
    method Disturb()
      requires Consistent()
      modifies this
      ensures Consistent() && db == old(db)
      ensures script == if old(script) == [] then [] else old(script)[1..]
      ensures old(script) == [] ==> Now() == old(Now())
      ensures freeLen >= old(freeLen) && envPglast >= old(envPglast)
      ensures envPglast != old(envPglast) ==> envPglast in db
    {
      if script != [] {
        var d := script[0];
        script := script[1..];
        if freeLen <= d.freeLen && d.looseCount <= looseCount && envPglast <= d.pglast < txnid
           && (d.pglast != envPglast ==> d.pglast in db)
           && (d.pglast == 0 ==> d.headLen == 0) {
          headLen, looseCount, freeLen, envPglast := d.headLen, d.looseCount, d.freeLen, d.pglast;
        }
      }
    }

    /** mdb_cursor_put with MDB_RESERVE on the freeDB. */
    method Put(key: nat, room: nat)
      requires Consistent() && key > 0
      modifies this
      ensures Consistent() && db == old(db)[key := room]
      ensures script == if old(script) == [] then [] else old(script)[1..]
      ensures old(script) == [] ==> Now() == old(Now())
      ensures freeLen >= old(freeLen) && envPglast >= old(envPglast)
      ensures envPglast != old(envPglast) ==> envPglast in db
    {
      db := db[key := room];
      Disturb();
    }

    /** mdb_cursor_first on the freeDB. */
    method FirstKey() returns (k: nat)
      requires db != map[]
      ensures k in db && forall j :: j in db ==> k <= j
    {
      var keys := db.Keys;
      k :| k in keys;
      keys := keys - {k};
      while keys != {}
        invariant keys <= db.Keys && k in db
        invariant forall j :: j in db && j !in keys ==> k <= j
        decreases keys
      {
        var j :| j in keys;
        if j < k {
          k := j;
        }
        keys := keys - {j};
      }
    }

    /** Delete the records consumed since the last round, and any reserved before them. */
    method DeleteConsumed(pglast0: nat, headId0: nat, headRoom0: nat, totalRoom0: nat)
      returns (pglast: nat, headId: nat, headRoom: nat, totalRoom: nat)
      requires Consistent() && pglast0 <= envPglast
      requires pglast0 < envPglast ==> envPglast in db
      requires pglast0 == envPglast ==> Reserved(db, pglast0, headId0, headRoom0, totalRoom0)
      modifies this
      ensures Consistent() && pglast == envPglast && Reserved(db, pglast, headId, headRoom, totalRoom)
      ensures freeLen >= old(freeLen) && envPglast >= old(envPglast)
      ensures (txnid in db <==> txnid in old(db)) && (txnid in db ==> db[txnid] == old(db)[txnid])
      ensures |script| <= |old(script)| && (old(script) == [] ==> Now() == old(Now()))
      ensures pglast0 < old(envPglast) ==> totalRoom == 0
      ensures SameAbove(old(db), db, envPglast, txnid)
      ensures pglast0 == old(envPglast) ==> script == old(script) && Now() == old(Now()) && db == old(db)
      ensures pglast0 == old(envPglast) ==>
        (pglast, headId, headRoom, totalRoom) == (pglast0, headId0, headRoom0, totalRoom0)
    {
      pglast, headId, headRoom, totalRoom := pglast0, headId0, headRoom0, totalRoom0;
      while pglast < envPglast
        invariant Consistent() && pglast <= envPglast
        invariant pglast < envPglast ==> envPglast in db
        invariant pglast == envPglast ==> Reserved(db, pglast, headId, headRoom, totalRoom)
        invariant freeLen >= old(freeLen) && envPglast >= old(envPglast)
        invariant forall k :: k in db && k > envPglast <==> k in old(db) && k > envPglast
        invariant forall k :: k in db && k > envPglast ==> db[k] == old(db)[k]
        invariant |script| <= |old(script)| && (old(script) == [] ==> Now() == old(Now()))
        invariant pglast != pglast0 ==> totalRoom == 0
        invariant pglast0 == old(envPglast) ==> script == old(script) && Now() == old(Now()) && db == old(db)
        invariant pglast0 == old(envPglast) ==>
          (pglast, headId, headRoom, totalRoom) == (pglast0, headId0, headRoom0, totalRoom0)
        decreases db.Keys
      {
        var k := FirstKey();
        pglast, headId := k, k;
        totalRoom, headRoom := 0, 0;
        db := db - {k};
        Disturb();
      }
    }

    /** Save the length of mt_free_pgs under txnid until it stops growing. */
    method PutFreePages(freecnt0: nat) returns (freecnt: nat)
      requires Consistent() && freecnt0 < freeLen
      modifies this
      ensures Consistent() && freecnt == freeLen >= old(freeLen) && envPglast >= old(envPglast)
      ensures db.Keys == old(db).Keys + {txnid} && db[txnid] == freecnt
      ensures forall k :: k in old(db) && k != txnid ==> db[k] == old(db)[k]
      ensures envPglast != old(envPglast) ==> envPglast in db
      ensures |script| <= |old(script)| && (old(script) != [] ==> |script| < |old(script)|)
      ensures old(script) == [] ==> Now() == old(Now())
      ensures SameAbove(old(db), db, envPglast, txnid)
    {
      if freecnt0 == 0 {
        Disturb();  // touch the last page of the freeDB
      }
      freecnt := freeLen;
      Put(txnid, freecnt);
      while freecnt < freeLen
        invariant Consistent() && freecnt <= freeLen && freeLen >= old(freeLen) && envPglast >= old(envPglast)
        invariant db.Keys == old(db).Keys + {txnid} && db[txnid] == freecnt
        invariant forall k :: k in old(db) && k != txnid ==> db[k] == old(db)[k]
        invariant envPglast != old(envPglast) ==> envPglast in db
        invariant |script| <= |old(script)| && (old(script) != [] ==> |script| < |old(script)|)
        invariant old(script) == [] ==> Now() == old(Now())
        invariant script == [] ==> freecnt <= freeLen
        decreases |script|, freeLen - freecnt
      {
        freecnt := freeLen;
        Put(txnid, freecnt);
      }
    }

    /**
      The reservation loop.  On exit the records with keys 1 .. me_pglast are exactly those
      reserved for me_pghead and the loose pages, they have room for all of them, and
      mt_free_pgs is stored under txnid.  If nothing disturbs the lists, the room is exact.
     */
    method ReserveRooms() returns (headId: nat, totalRoom: nat)
      requires Consistent() && (envPglast > 0 ==> envPglast in db) && txnid !in db
      modifies this
      ensures Consistent()
      ensures totalRoom >= headLen + looseCount
      ensures totalRoom == 0 || (1 <= headId <= envPglast < txnid)
      ensures totalRoom != 0 ==>
        (forall k :: k in db && k <= envPglast <==> headId <= k <= envPglast) &&
        totalRoom == Rooms(db, headId, envPglast)
      ensures forall k :: k in db && k <= envPglast ==> headId <= k
      ensures SameAbove(old(db), db, envPglast, txnid)
      ensures freeLen >= old(freeLen) && (freeLen > 0 ==> txnid in db && db[txnid] == freeLen)
      ensures old(script) == [] ==> totalRoom == headLen + looseCount && Now() == old(Now())
    {
      var pglast: nat, freecnt: nat, headRoom: nat, more := 0, 0, 0, 1;
      headId, totalRoom := 0, 0;
      assert Reserved(db, pglast, headId, headRoom, totalRoom);
      SameStart(db, envPglast, txnid);
      hide Reserved, SameAbove;
      while true
        invariant Consistent() && pglast <= envPglast && freecnt <= freeLen && -1 <= more <= 1
        invariant pglast < envPglast ==> envPglast in db
        invariant pglast == envPglast ==> Reserved(db, pglast, headId, headRoom, totalRoom)
        invariant freeLen >= old(freeLen) && SameAbove(old(db), db, envPglast, txnid)
        invariant freecnt > 0 ==> txnid in db && db[txnid] == freecnt
        invariant old(script) == [] ==> script == [] && Now() == old(Now()) && totalRoom <= headLen + looseCount
        decreases |script|, pglast < envPglast, freecnt < freeLen, more + 1,
          totalRoom != headLen + looseCount, headId, headRoom < maxfree
      {
        ghost var db1, p1 := db, envPglast;
        pglast, headId, headRoom, totalRoom := DeleteConsumed(pglast, headId, headRoom, totalRoom);
        SameStill(old(db), db1, db, p1, envPglast, txnid);
        db1, p1 := db, envPglast;
        if freecnt < freeLen {
          freecnt := PutFreePages(freecnt);
          ReservedSame(db1, db, pglast, headId, headRoom, totalRoom);
          SameStill(old(db), db1, db, p1, envPglast, txnid);
          continue;
        }
        var mopLen := headLen + looseCount;
        if totalRoom >= mopLen {
          more := if totalRoom == mopLen then more else more - 1;
          if totalRoom == mopLen || more < 0 {
            break;
          }
        }
        headId, headRoom, totalRoom := AddRoom(pglast, headId, headRoom, totalRoom, mopLen);
        SameStill(old(db), db1, db, p1, envPglast, txnid);
      }
      ReservedHead(db, pglast, headId, headRoom, totalRoom);
    }

    /** A full head record stays and a new one is put below it; then the head record is (re)written. */
    method AddRoom(pglast: nat, headId0: nat, headRoom0: nat, totalRoom0: nat, mopLen: nat)
      returns (headId: nat, headRoom: nat, totalRoom: nat)
      requires Consistent() && pglast == envPglast && Reserved(db, pglast, headId0, headRoom0, totalRoom0)
      requires mopLen == headLen + looseCount && totalRoom0 != mopLen
      modifies this
      ensures Consistent() && pglast <= envPglast && (pglast < envPglast ==> envPglast in db)
      ensures pglast == envPglast ==> Reserved(db, pglast, headId, headRoom, totalRoom)
      ensures headRoom0 <= totalRoom0
      ensures var full := totalRoom0 < mopLen && headRoom0 >= maxfree && headId0 > 1;
        var rest := if full then totalRoom0 else totalRoom0 - headRoom0;
        && headId == (if full then headId0 - 1 else headId0)
        && headRoom == NextRoom(mopLen - rest, headId, maxfree) && totalRoom == rest + headRoom
      ensures script == if old(script) == [] then [] else old(script)[1..]
      ensures old(script) == [] ==> Now() == old(Now())
      ensures (txnid in db <==> txnid in old(db)) && (txnid in db ==> db[txnid] == old(db)[txnid])
      ensures freeLen >= old(freeLen) && SameAbove(old(db), db, envPglast, txnid)
    {
      ReservedHead(db, pglast, headId0, headRoom0, totalRoom0);
      hide Reserved, SameAbove, NextRoom;
      headId, headRoom := headId0, headRoom0;
      if totalRoom0 < mopLen && headRoom >= maxfree && headId > 1 {
        headId := headId - 1;
        headRoom := 0;
      }
      headRoom, totalRoom := Rewrite(pglast, headId, headRoom, totalRoom0, mopLen);
    }

    /** (Re)write the record at `headId`. */
    method Rewrite(
        pglast: nat, headId: nat, headRoom0: nat, totalRoom0: nat, mopLen: nat)
      returns (headRoom: nat, totalRoom: nat)
      requires Consistent() && pglast == envPglast && 1 <= headId <= pglast && headRoom0 <= totalRoom0
      requires forall k :: k in db && k <= pglast && k != headId <==> headId < k <= pglast
      requires headId in db ==> db[headId] == headRoom0
      requires headId !in db ==> headRoom0 == 0
      requires totalRoom0 == headRoom0 + Rooms(db, headId + 1, pglast)
      modifies this
      ensures Consistent() && headRoom == NextRoom(mopLen - (totalRoom0 - headRoom0), headId, maxfree)
      ensures totalRoom == totalRoom0 - headRoom0 + headRoom
      ensures db == old(db)[headId := headRoom] && SameAbove(old(db), db, envPglast, txnid)
      ensures pglast == envPglast ==> Reserved(db, pglast, headId, headRoom, totalRoom)
      ensures script == if old(script) == [] then [] else old(script)[1..]
      ensures old(script) == [] ==> Now() == old(Now())
      ensures freeLen >= old(freeLen) && envPglast >= old(envPglast)
      ensures envPglast != old(envPglast) ==> envPglast in db
    {
      totalRoom := totalRoom0 - headRoom0;
      headRoom := NextRoom(mopLen - totalRoom, headId, maxfree);
      Put(headId, headRoom);
      RoomsSame(old(db), db, headId + 1, pglast);
      totalRoom := totalRoom + headRoom;
    }
  }

  // ---------------------------------------------------------------- filling the reserved records

  /** The list cut from its end into pieces no longer than the rooms, until it is used up. */
  function Cut(list: seq<nat>, rooms: seq<nat>): (pieces: seq<seq<nat>>)
    ensures |pieces| <= |rooms|
    decreases rooms
  {
    if list == [] || rooms == [] then []
    else
      var len := if rooms[0] > |list| then |list| else rooms[0];
      [list[|list| - len..]] + Cut(list[..|list| - len], rooms[1..])
  }

  /** Last piece first. */
  function Join(pieces: seq<seq<nat>>): seq<nat> {
    if pieces == [] then [] else Join(pieces[1..]) + pieces[0]
  }

  /** With enough room, the pieces are the whole list, in order, each number once. */
  lemma {:induction false} CutJoins(list: seq<nat>, rooms: seq<nat>)
    requires SplitPoint.Sum(rooms) >= |list|
    ensures Join(Cut(list, rooms)) == list
    decreases rooms
  {
    if list != [] {
      var len := if rooms[0] > |list| then |list| else rooms[0];
      var head, tail := list[..|list| - len], list[|list| - len..];
      CutJoins(head, rooms[1..]);
      assert Cut(list, rooms)[1..] == Cut(head, rooms[1..]);
      assert list == head + tail;
    }
  }

  /** Every piece of a strictly descending list is one, and all of a piece is below the pieces after it. */
  lemma {:induction false} CutDescends(list: seq<nat>, rooms: seq<nat>, i: nat)
    requires StrictlyDescending(list) && i < |Cut(list, rooms)|
    ensures StrictlyDescending(Cut(list, rooms)[i]) && |Cut(list, rooms)[i]| <= rooms[i]
    decreases rooms
  {
    if i > 0 {
      var len := if rooms[0] > |list| then |list| else rooms[0];
      CutDescends(list[..|list| - len], rooms[1..], i - 1);
    }
  }

  datatype Record = Record(key: nat, room: nat)

  function RoomsOf(recs: seq<Record>): (r: seq<nat>)
    ensures |r| == |recs| && forall i :: 0 <= i < |recs| ==> r[i] == recs[i].room
  {
    seq(|recs|, i requires 0 <= i < |recs| => recs[i].room)
  }

  /** The length goes where the preceding entry is, which is put back afterwards. */
  method WritePiece(mop: array<nat>, pos: nat, len: nat) returns (data: seq<nat>)
    requires pos + len < mop.Length
    modifies mop
    ensures mop[..] == old(mop[..])
    ensures data == [len] + mop[pos + 1..pos + len + 1]
  {
    var save := mop[pos];
    mop[pos] := len;
    data := mop[pos..pos + len + 1];
    mop[pos] := save;
  }

  /**
    The fill loop.  `mop` holds the list in slots 1 .. mopLen.  Each record is written
    straight from the array: the slot in front of its piece briefly holds the length.
    `stored[i]` is what goes into record i; the array is as before at the end.
   */
  method Fill(mop: array<nat>, mopLen0: nat, recs: seq<Record>) returns (stored: seq<seq<nat>>)
    requires mopLen0 < mop.Length
    modifies mop
    ensures mop[..] == old(mop[..])
    ensures |stored| == |Cut(mop[1..mopLen0 + 1], RoomsOf(recs))|
    ensures forall i :: 0 <= i < |stored| ==>
      stored[i] == [|Cut(mop[1..mopLen0 + 1], RoomsOf(recs))[i]|] + Cut(mop[1..mopLen0 + 1], RoomsOf(recs))[i]
  {
    hide Cut;
    stored := [];
    var mopLen, n := mopLen0, 0;
    ghost var s, rooms := mop[..], RoomsOf(recs);
    ghost var pieces, cut: seq<seq<nat>> := Cut(s[1..mopLen0 + 1], rooms), [];
    assert rooms[n..] == rooms;
    while mopLen > 0 && n < |recs|
      invariant 0 <= mopLen <= mopLen0 && 0 <= n <= |recs| && n == |stored| == |cut|
      invariant mop[..] == s
      invariant pieces == cut + Cut(s[1..mopLen + 1], rooms[n..])
      invariant forall i :: 0 <= i < n ==> stored[i] == [|cut[i]|] + cut[i]
    {
      var len := recs[n].room;
      if len > mopLen {
        len := mopLen;
      }
      FillStep(s, mopLen, len, rooms, n, cut, pieces);
      cut := cut + [s[mopLen - len + 1..mopLen + 1]];
      var data := WritePiece(mop, mopLen - len, len);
      stored := stored + [data];
      mopLen := mopLen - len;
      n := n + 1;
    }
    CutDone(s[1..mopLen + 1], rooms[n..]);
    assert pieces == cut;
  }

  /** One more piece off the end of the list. */
  lemma FillStep(s: seq<nat>, mopLen: nat, len: nat, rooms: seq<nat>, n: nat, cut: seq<seq<nat>>, pieces: seq<seq<nat>>)
    requires 0 < mopLen < |s| && n < |rooms| && len == if rooms[n] > mopLen then mopLen else rooms[n]
    requires pieces == cut + Cut(s[1..mopLen + 1], rooms[n..])
    ensures pieces == cut + [s[mopLen - len + 1..mopLen + 1]] + Cut(s[1..mopLen - len + 1], rooms[n + 1..])
  {
    hide Cut;
    var rest := s[1..mopLen + 1];
    CutStep(rest, rooms[n..], len);
    assert rooms[n..][1..] == rooms[n + 1..];
    EndSlices(s, mopLen, len);
  }

  lemma EndSlices(s: seq<nat>, n: nat, len: nat)
    requires len <= n < |s|
    ensures s[1..n + 1][n - len..] == s[n - len + 1..n + 1] && s[1..n + 1][..n - len] == s[1..n - len + 1]
  {
    var l, r := s[1..n + 1][n - len..], s[n - len + 1..n + 1];
    forall i | 0 <= i < len ensures l[i] == r[i] { assert l[i] == s[n - len + 1 + i]; }
  }

  lemma CutDone(list: seq<nat>, rooms: seq<nat>)
    requires list == [] || rooms == []
    ensures Cut(list, rooms) == []
  {}

  lemma CutStep(list: seq<nat>, rooms: seq<nat>, len: nat)
    requires list != [] && rooms != [] && len == if rooms[0] > |list| then |list| else rooms[0]
    ensures Cut(list, rooms) == [list[|list| - len..]] + Cut(list[..|list| - len], rooms[1..])
  {}

  // ---------------------------------------------------------------- the save as a step of the recycler

  ghost function AsRecords(pieces: seq<seq<nat>>, headId: nat): (m: Recycler.FreeDb)
    ensures forall k :: k in m <==> headId <= k < headId + |pieces|
    decreases pieces
  {
    if pieces == [] then map[] else AsRecords(pieces[1..], headId + 1)[headId := multiset(pieces[0])]
  }

  lemma {:induction false} RecordsHoldJoin(pieces: seq<seq<nat>>, headId: nat)
    ensures Recycler.Flat(AsRecords(pieces, headId)) == multiset(Join(pieces))
    decreases pieces
  {
    if pieces != [] {
      var m, rest := AsRecords(pieces, headId), AsRecords(pieces[1..], headId + 1);
      RecordsHoldJoin(pieces[1..], headId + 1);
      assert m - {headId} == rest;
      RecyclerProofs.FlatRemove(m, headId);
    }
  }

  ghost function RoomList(db: map<nat, nat>, lo: nat, hi: nat): (r: seq<nat>)
    requires forall k :: lo <= k <= hi ==> k in db
    ensures SplitPoint.Sum(r) == Rooms(db, lo, hi) && |r| == if lo <= hi then hi + 1 - lo else 0
    decreases hi + 1 - lo
  {
    if lo > hi then [] else [db[lo]] + RoomList(db, lo + 1, hi)
  }

  /**
    Filling the rooms a reservation leaves is a freelist save as the recycler requires it, for
    any writer whose reclaimed and loose pages are the list that is stored.
   */
  lemma SaveIsLegal(w: Recycler.Work, list: seq<nat>, db: map<nat, nat>, headId: nat)
    requires 1 <= headId && forall k :: headId <= k <= w.pglast ==> k in db
    requires Rooms(db, headId, w.pglast) >= |list|
    requires multiset(list) == if w.hasHead then w.pghead + multiset(w.loose) else multiset{}
    requires w.detached == {}
    ensures Recycler.CanSave(w, AsRecords(Cut(list, RoomList(db, headId, w.pglast)), headId))
  {
    var rooms := RoomList(db, headId, w.pglast);
    CutJoins(list, rooms);
    RecordsHoldJoin(Cut(list, rooms), headId);
  }
}
