/** Allocating and freeing doorbell records (dbrec.c:53-148). */
module DoorbellRecords {

  import opened IndexMath
  import opened DoorbellPages

  datatype Option<T> = None | Some(value: T)

  // ---------------------------------------------------------------------------
  // Which record
  // ---------------------------------------------------------------------------

  /** The first page from `i` on with a record to spare, or the length of the list. */
  function FirstRoom(pages: seq<Page>, i: nat): (r: nat)
    requires i <= |pages|
    ensures i <= r <= |pages|
    ensures r < |pages| ==> pages[r].useCnt < pages[r].numDb
    ensures forall j: nat {:trigger pages[j]} :: i <= j < r ==> pages[j].useCnt >= pages[j].numDb
    decreases |pages| - i
  {
    if i == |pages| || pages[i].useCnt < pages[i].numDb then i else FirstRoom(pages, i + 1)
  }

  /** The first set bit from `k` on, or the number of bits. */
  function FirstSet(bits: seq<bool>, k: nat): (r: nat)
    requires k <= |bits|
    ensures k <= r <= |bits|
    ensures r < |bits| ==> bits[r]
    ensures forall j: nat {:trigger bits[j]} :: k <= j < r ==> !bits[j]
    decreases |bits| - k
  {
    if k == |bits| || bits[k] then k else FirstSet(bits, k + 1)
  }

  lemma {:induction false} FirstSetSkips(bits: seq<bool>, k: nat, m: nat)
    requires k <= m <= |bits| && forall j: nat {:trigger bits[j]} :: k <= j < m ==> !bits[j]
    ensures FirstSet(bits, k) == FirstSet(bits, m)
    decreases m - k
  {
    if k < m { FirstSetSkips(bits, k + 1, m); }
  }

  /** A page with a record to spare has one: the count of records handed out and the spare bits
      past the last record never mislead the scan. */
  lemma RoomIsFound(p: Page, ps: nat, line: nat)
    requires PageOk(p, ps, line) && p.useCnt < p.numDb
    ensures FirstSet(p.free, 0) < p.numDb
  {
    var k := SomeSet(p.free, p.numDb);
    assert FirstSet(p.free, 0) <= k;
  }

  /** A page as it is added. */
  function NewPage(buf: nat, ps: nat, line: nat): (p: Page)
    requires SizesOk(ps, line) && Pos(buf, ps) == 0
    ensures PageOk(p, ps, line) && p.useCnt == 0 < p.numDb && p.buf == buf
  {
    var pp := ps / line;
    var bits := seq((pp + WORD_BITS - 1) / WORD_BITS * WORD_BITS, _ => true);
    NoneCleared(bits);
    PerPage(ps, line);
    Page(buf, pp, 0, bits)
  }

  lemma PerPage(ps: nat, line: nat)
    requires SizesOk(ps, line)
    ensures 0 < ps / line && Span(ps / line, line) <= ps < Span(ps / line, line) + line
  {
    LapsIsDiv(ps, line);
    LapsSpan(ps, line);
  }

  /** The address of the page a record lies in. */
  function PageOf(db: nat, ps: nat): (r: nat)
    requires ps > 0
  {
    db - Pos(db, ps)
  }

  /** The first page from `i` on that holds the record, or the length of the list. */
  function Owner(pages: seq<Page>, ps: nat, db: nat, i: nat): (r: nat)
    requires ps > 0 && i <= |pages|
    ensures i <= r <= |pages|
    ensures r < |pages| ==> pages[r].buf == PageOf(db, ps)
    ensures forall j: nat {:trigger pages[j]} :: i <= j < r ==> pages[j].buf != PageOf(db, ps)
    decreases |pages| - i
  {
    if i == |pages| || pages[i].buf == PageOf(db, ps) then i else Owner(pages, ps, db, i + 1)
  }

  /** The address of a record leads back to its page and its bit. */
  lemma AddressRoundTrip(pages: seq<Page>, ps: nat, line: nat, db: nat, i: nat, k: nat)
    requires PagesShape(pages, ps, line) && SizesOk(ps, line) && At(pages, line, db, i, k)
    ensures Owner(pages, ps, db, 0) == i && Laps(db - pages[i].buf, line) == k
  {
    var p := pages[i];
    RecordInside(p, ps, line, k);
    PosAdd(p.buf, Span(k, line), ps);
    LapsOfSpan(k, line);
    var j := Owner(pages, ps, db, 0);
    assert j <= i && pages[j].buf == pages[i].buf;
  }

  // ---------------------------------------------------------------------------
  // The list after each call
  // ---------------------------------------------------------------------------

  /** A buffer that can become a page: aligned, and clear of the pages there are. */
  ghost predicate Usable(pages: seq<Page>, ps: nat, buf: nat) {
    && ps > 0 && Pos(buf, ps) == 0
    && forall i: nat {:trigger pages[i]} :: i < |pages| ==> pages[i].buf + ps <= buf || buf + ps <= pages[i].buf
  }

  /** The list with a page to allocate from in it, when there is one to be had. */
  function WithRoom(pages: seq<Page>, ps: nat, line: nat, buf: Option<nat>): seq<Page>
    requires SizesOk(ps, line) && (buf.Some? ==> Pos(buf.value, ps) == 0)
  {
    if FirstRoom(pages, 0) == |pages| && buf.Some? then [NewPage(buf.value, ps, line)] + pages else pages
  }

  lemma WithRoomKeeps(pages: seq<Page>, ps: nat, line: nat, buf: Option<nat>, db: nat)
    requires SizesOk(ps, line) && PagesShape(pages, ps, line) && (buf.Some? ==> Usable(pages, ps, buf.value))
    ensures PagesShape(WithRoom(pages, ps, line, buf), ps, line)
    ensures Live(WithRoom(pages, ps, line, buf), line, db) <==> Live(pages, line, db)
    ensures FirstRoom(WithRoom(pages, ps, line, buf), 0) == |WithRoom(pages, ps, line, buf)| <==>
            buf.None? && forall i: nat {:trigger pages[i]} :: i < |pages| ==> pages[i].useCnt >= pages[i].numDb
  {
    if FirstRoom(pages, 0) == |pages| && buf.Some? {
      var more := [NewPage(buf.value, ps, line)] + pages;
      forall j: nat | j < |more| ensures PageOk(more[j], ps, line) {
        if j > 0 { assert PageOk(pages[j - 1], ps, line); }
      }
      forall j: nat, m: nat | j < m < |more| ensures Apart(more[j], more[m], ps) {
        if j > 0 { assert Apart(pages[j - 1], pages[m - 1], ps); } else { assert pages[m - 1] == more[m]; }
      }
      assert Drop(more, 0) == pages;
      DropLive(more, ps, line, 0, db);
    }
  }

  /** `pages'` is `pages` with its first free record, at `db`, handed out. */
  ghost predicate Handed(pages: seq<Page>, line: nat, pages': seq<Page>, db: nat) {
    var i := FirstRoom(pages, 0);
    && i < |pages|
    && var k := FirstSet(pages[i].free, 0);
       k < |pages[i].free| && pages' == Take(pages, i, k) && db == Addr(pages[i].buf, k, line)
  }

  /** With every page full, the new page goes to the front of the list, and its first record is handed out. */
  lemma NewPageInFront(pages: seq<Page>, ps: nat, line: nat, buf: nat, pages': seq<Page>, db: nat)
    requires SizesOk(ps, line) && Pos(buf, ps) == 0
    requires forall i: nat {:trigger pages[i]} :: i < |pages| ==> pages[i].useCnt >= pages[i].numDb
    requires Handed(WithRoom(pages, ps, line, Some(buf)), line, pages', db)
    ensures db == buf && |pages'| == |pages| + 1 && pages'[1..] == pages
    ensures pages'[0].buf == buf && pages'[0].useCnt == 1 && ps / line == pages'[0].numDb
  {
    var some := [NewPage(buf, ps, line)] + pages;
    assert FirstRoom(pages, 0) == |pages| && WithRoom(pages, ps, line, Some(buf)) == some;
    assert FirstRoom(some, 0) == 0 && FirstSet(some[0].free, 0) == 0;
    assert pages'[1..] == some[1..] == pages;
  }

  predicate WordClear(bits: seq<bool>, at: nat)
    requires at + WORD_BITS <= |bits|
  {
    forall j: nat :: at <= j < at + WORD_BITS ==> !bits[j]
  }

  /** The record's page, if found, has its bit and counts it. */
  predicate FreeDefined(pages: seq<Page>, ps: nat, line: nat, db: nat)
    requires SizesOk(ps, line)
  {
    var i := Owner(pages, ps, db, 0);
    i < |pages| ==> db >= pages[i].buf && Laps(db - pages[i].buf, line) < |pages[i].free| && pages[i].useCnt > 0
  }

  /** Record `k` of page `i` put back; a page with nothing handed out goes. */
  function Back(pages: seq<Page>, i: nat, k: nat): seq<Page>
    requires i < |pages| && k < |pages[i].free| && pages[i].useCnt > 0
  {
    if pages[i].useCnt == 1 then Drop(PutBack(pages, i, k), i) else PutBack(pages, i, k)
  }

  lemma BackKeeps(pages: seq<Page>, ps: nat, line: nat, i: nat, k: nat, other: nat)
    requires SizesOk(ps, line) && PagesOk(pages, ps, line)
    requires i < |pages| && k < |pages[i].free| && !pages[i].free[k]
    ensures PagesOk(Back(pages, i, k), ps, line)
    ensures Live(Back(pages, i, k), line, other) <==>
            Live(pages, line, other) && other != Addr(pages[i].buf, k, line)
  {
    PutBackShape(pages, ps, line, i, k);
    PutBackLive(pages, ps, line, i, k, other);
    var pages' := PutBack(pages, i, k);
    if pages'[i].useCnt == 0 {
      DropShape(pages', ps, line, i);
      DropLive(pages', ps, line, i, other);
    }
  }

  lemma BackUndoesTake(pages: seq<Page>, i: nat, k: nat)
    requires i < |pages| && k < |pages[i].free| && pages[i].free[k]
    ensures Back(Take(pages, i, k), i, k) == if pages[i].useCnt == 0 then Drop(pages, i) else pages
  {
    PutBackTake(pages, i, k);
  }

  /** After mlx5_free_db. */
  function Freed(pages: seq<Page>, ps: nat, line: nat, db: nat): seq<Page>
    requires SizesOk(ps, line) && FreeDefined(pages, ps, line, db)
  {
    var i := Owner(pages, ps, db, 0);
    if i == |pages| then pages else Back(pages, i, Laps(db - pages[i].buf, line))
  }

  lemma AllocKeeps(pages: seq<Page>, ps: nat, line: nat, i: nat, k: nat, db: nat)
    requires SizesOk(ps, line) && PagesShape(pages, ps, line)
    requires i == FirstRoom(pages, 0) < |pages| && k == FirstSet(pages[i].free, 0)
    requires forall j: nat {:trigger pages[j]} :: j < |pages| && j != i ==> pages[j].useCnt > 0
    ensures k < pages[i].numDb <= |pages[i].free| && PagesOk(Take(pages, i, k), ps, line)
    ensures !Live(pages, line, Addr(pages[i].buf, k, line))
    ensures Live(Take(pages, i, k), line, db) <==> Live(pages, line, db) || db == Addr(pages[i].buf, k, line)
  {
    assert PageOk(pages[i], ps, line);
    RoomIsFound(pages[i], ps, line);
    TakeShape(pages, ps, line, i, k);
    TakeLive(pages, ps, line, i, k, db);
  }

  lemma FreeFinds(pages: seq<Page>, ps: nat, line: nat, db: nat) returns (i: nat, k: nat)
    requires SizesOk(ps, line) && PagesOk(pages, ps, line) && Live(pages, line, db)
    ensures At(pages, line, db, i, k) && i == Owner(pages, ps, db, 0) && k == Laps(db - pages[i].buf, line)
  {
    i, k :| At(pages, line, db, i, k);
    AddressRoundTrip(pages, ps, line, db, i, k);
  }

  lemma FreeKeeps(pages: seq<Page>, ps: nat, line: nat, db: nat, other: nat)
    requires SizesOk(ps, line) && PagesOk(pages, ps, line) && Live(pages, line, db)
    ensures Owner(pages, ps, db, 0) < |pages| && FreeDefined(pages, ps, line, db)
    ensures PagesOk(Freed(pages, ps, line, db), ps, line)
    ensures Live(Freed(pages, ps, line, db), line, other) <==> Live(pages, line, other) && other != db
  {
    var i, k := FreeFinds(pages, ps, line, db);
    FreedIsBack(pages, ps, line, db, i, k);
    BackKeeps(pages, ps, line, i, k, other);
  }

  /** Freeing the address of a page's record puts it back. */
  lemma FreedIsBack(pages: seq<Page>, ps: nat, line: nat, db: nat, i: nat, k: nat)
    requires SizesOk(ps, line) && i < |pages| && k < |pages[i].free| && pages[i].useCnt > 0
    requires Owner(pages, ps, db, 0) == i && db >= pages[i].buf && Laps(db - pages[i].buf, line) == k
    ensures FreeDefined(pages, ps, line, db) && Freed(pages, ps, line, db) == Back(pages, i, k)
  {
  }

  /** Freeing the record just handed out undoes it, and drops a page it was the first of. */
  lemma FreeUndoesTake(pages: seq<Page>, ps: nat, line: nat, i: nat, k: nat, taken: seq<Page>, db: nat)
    requires SizesOk(ps, line) && i < |pages| && k < |pages[i].free| && pages[i].free[k]
    requires taken == Take(pages, i, k) && PagesOk(taken, ps, line) && db == Addr(pages[i].buf, k, line)
    ensures Live(taken, line, db) && FreeDefined(taken, ps, line, db)
    ensures Freed(taken, ps, line, db) == if pages[i].useCnt == 0 then Drop(pages, i) else pages
  {
    assert At(taken, line, db, i, k);
    AddressRoundTrip(taken, ps, line, db, i, k);
    FreedIsBack(taken, ps, line, db, i, k);
    BackUndoesTake(pages, i, k);
  }

  ghost predicate LiveWithout(pages: seq<Page>, line: nat, pages': seq<Page>, db: nat) {
    forall x: nat {:trigger Live(pages', line, x)} :: Live(pages', line, x) <==> Live(pages, line, x) && x != db
  }

  lemma FreeLeaves(pages: seq<Page>, ps: nat, line: nat, db: nat)
    requires SizesOk(ps, line) && PagesOk(pages, ps, line) && Live(pages, line, db)
    ensures FreeDefined(pages, ps, line, db) && PagesOk(Freed(pages, ps, line, db), ps, line)
    ensures LiveWithout(pages, line, Freed(pages, ps, line, db), db)
  {
    FreeKeeps(pages, ps, line, db, db);
    forall x: nat ensures Live(Freed(pages, ps, line, db), line, x) <==> Live(pages, line, x) && x != db {
      FreeKeeps(pages, ps, line, db, x);
    }
  }

  /** Whatever address is freed, if a page's size is a multiple of the cache line's, the bit for it
      exists. */
  lemma FreeAlwaysDefined(pages: seq<Page>, ps: nat, line: nat, db: nat)
    requires SizesOk(ps, line) && PagesOk(pages, ps, line) && ps % line == 0
    ensures FreeDefined(pages, ps, line, db)
  {
    var i := Owner(pages, ps, db, 0);
    if i < |pages| {
      var p, at := pages[i], Pos(db, ps);
      assert PageOk(p, ps, line) && p.buf == db - at;
      SpanIs(p.numDb, line);
      DivModUnique(ps, line, p.numDb, ps - Span(p.numDb, line));
      LapsSpan(at, line);
      var k := Laps(at, line);
      if k > p.numDb { SpanGrows(p.numDb, k, line); }
    }
  }

  /** The list stays sound, and of the addresses handed out only `db` goes. */
  ghost predicate FreesOnly(pages: seq<Page>, ps: nat, line: nat, db: nat, pages': seq<Page>) {
    PagesOk(pages', ps, line) && LiveWithout(pages, line, pages', db)
  }

  /** Freeing a record not handed out miscounts: the page's count is wrong from then on, or the page
      goes while a record of it is in use. */
  lemma FreeMiscounts(pages: seq<Page>, ps: nat, line: nat, db: nat, i: nat, k: nat)
    requires SizesOk(ps, line) && PagesOk(pages, ps, line) && FreeDefined(pages, ps, line, db)
    requires i == Owner(pages, ps, db, 0) < |pages| && k == Laps(db - pages[i].buf, line)
    requires pages[i].free[k] && !Live(pages, line, db)
    ensures !FreesOnly(pages, ps, line, db, Freed(pages, ps, line, db))
  {
    var p, pages' := pages[i], PutBack(pages, i, k);
    assert PageOk(p, ps, line) && p.free[k := true] == p.free;
    if p.useCnt > 1 {
      assert !PageOk(pages'[i], ps, line);
    } else {
      NoneCleared(p.free);
      var m: nat :| m < |p.free| && !p.free[m];
      var x := Addr(p.buf, m, line);
      assert At(pages, line, x, i, m);
      if Live(Drop(pages', i), line, x) {
        var j: nat, n: nat :| At(Drop(pages', i), line, x, j, n);
        DropKeepsAt(pages', i, line, x, j, n);
        var j' := if j < i then j else j + 1;
        assert At(pages, line, x, j', n);
        RecordsApart(pages, ps, line, x, i, m, x, j', n);
      }
    }
  }

  /** Freeing an address inside a record, but not at its start, frees the record. */
  lemma FreeInside(pages: seq<Page>, ps: nat, line: nat, db: nat, i: nat, k: nat)
    requires SizesOk(ps, line) && PagesOk(pages, ps, line) && FreeDefined(pages, ps, line, db)
    requires i == Owner(pages, ps, db, 0) < |pages| && k == Laps(db - pages[i].buf, line)
    requires !pages[i].free[k] && !Live(pages, line, db)
    ensures !FreesOnly(pages, ps, line, db, Freed(pages, ps, line, db))
  {
    var x := RecordOf(pages, ps, line, i, k);
    FreeKeeps(pages, ps, line, x, x);
  }

  lemma RecordOf(pages: seq<Page>, ps: nat, line: nat, i: nat, k: nat) returns (x: nat)
    requires SizesOk(ps, line) && PagesOk(pages, ps, line) && i < |pages| && k < |pages[i].free| && !pages[i].free[k]
    ensures Live(pages, line, x) && Owner(pages, ps, x, 0) == i
    ensures x >= pages[i].buf && Laps(x - pages[i].buf, line) == k
  {
    x := Addr(pages[i].buf, k, line);
    assert At(pages, line, x, i, k);
    AddressRoundTrip(pages, ps, line, x, i, k);
  }

  /** Freeing takes back only `db` exactly when it was handed out or lies in no page. */
  lemma FreeExact(pages: seq<Page>, ps: nat, line: nat, db: nat, pages': seq<Page>)
    requires SizesOk(ps, line) && PagesOk(pages, ps, line) && FreeDefined(pages, ps, line, db)
    requires pages' == Freed(pages, ps, line, db)
    ensures FreesOnly(pages, ps, line, db, pages') <==>
            Live(pages, line, db) || Owner(pages, ps, db, 0) == |pages|
  {
    var i := Owner(pages, ps, db, 0);
    if Live(pages, line, db) {
      FreeLeaves(pages, ps, line, db);
    } else if i < |pages| {
      var k := Laps(db - pages[i].buf, line);
      if pages[i].free[k] { FreeMiscounts(pages, ps, line, db, i, k); } else { FreeInside(pages, ps, line, db, i, k); }
    }
  }

  /** Freeing the record just allocated restores the list, page for page and bit for bit. */
  lemma FreeRestores(pages: seq<Page>, ps: nat, line: nat, buf: Option<nat>, pages': seq<Page>, db: nat)
    requires SizesOk(ps, line) && PagesOk(pages, ps, line) && PagesOk(pages', ps, line)
    requires buf.Some? ==> Pos(buf.value, ps) == 0
    requires Handed(WithRoom(pages, ps, line, buf), line, pages', db)
    ensures Live(pages', line, db) && FreeDefined(pages', ps, line, db) && Freed(pages', ps, line, db) == pages
  {
    var some := WithRoom(pages, ps, line, buf);
    var i := FirstRoom(some, 0);
    FreeUndoesTake(some, ps, line, i, FirstSet(some[i].free, 0), pages', db);
    if FirstRoom(pages, 0) == |pages| && buf.Some? { assert i == 0 && Drop(some, 0) == pages; }
  }

  class Context {
    const ps: nat
    const line: nat
    var dbList: seq<Page>

    ghost predicate Valid()
      reads this
    {
      SizesOk(ps, line) && PagesOk(dbList, ps, line)
    }

    constructor (ps: nat, line: nat)
      requires SizesOk(ps, line)
      ensures Valid() && this.ps == ps && this.line == line && dbList == []
    {
      this.ps, this.line, dbList := ps, line, [];
    }

    method FindRoom() returns (i: nat)
      ensures i == FirstRoom(dbList, 0)
    {
      i := 0;
      while i < |dbList| && dbList[i].useCnt >= dbList[i].numDb
        invariant i <= |dbList| && FirstRoom(dbList, 0) == FirstRoom(dbList, i)
      {
        i := i + 1;
      }
    }

    /** The scan over the words, and the first set bit of the first that has one. */
    static method Scan(bits: seq<bool>) returns (k: nat)
      requires |bits| % WORD_BITS == 0 && FirstSet(bits, 0) < |bits|
      ensures k == FirstSet(bits, 0)
    {
      var at := 0;
      while WordClear(bits, at)
        invariant at % WORD_BITS == 0 && 0 <= at < |bits| && FirstSet(bits, 0) == FirstSet(bits, at)
        decreases |bits| - at
      {
        FirstSetSkips(bits, at, at + WORD_BITS);
        at := at + WORD_BITS;
      }
      k := FirstSet(bits, at);
      assert k < at + WORD_BITS;
    }

    /** mlx5_alloc_dbrec; `buf` is the page that can be had from the system, if any. */
    method AllocDbrec(buf: Option<nat>) returns (db: Option<nat>)
      requires Valid() && (buf.Some? ==> Usable(dbList, ps, buf.value))
      modifies this
      ensures Valid()
      ensures db.None? <==> buf.None? && forall i: nat {:trigger old(dbList)[i]} :: i < |old(dbList)| ==>
                                           old(dbList)[i].useCnt >= old(dbList)[i].numDb
      ensures db.None? ==> dbList == old(dbList)
      ensures db.Some? ==>
        && !Live(old(dbList), line, db.value)
        && forall x: nat {:trigger Live(dbList, line, x)} :: Live(dbList, line, x) <==>
             Live(old(dbList), line, x) || x == db.value
      ensures db.Some? ==> Handed(WithRoom(old(dbList), ps, line, buf), line, dbList, db.value)
    {
      ghost var some := WithRoom(dbList, ps, line, buf);
      forall x: nat ensures Live(some, line, x) <==> Live(dbList, line, x) {
        WithRoomKeeps(dbList, ps, line, buf, x);
      }
      WithRoomKeeps(dbList, ps, line, buf, 0);
      var i := FindRoom();
      if i == |dbList| {
        if buf.None? { return None; }
        dbList := [NewPage(buf.value, ps, line)] + dbList;
        i := 0;
      }
      assert dbList == some && i == FirstRoom(some, 0);
      assert PageOk(dbList[i], ps, line);
      RoomIsFound(dbList[i], ps, line);
      var k := Scan(dbList[i].free);
      forall x: nat
        ensures Live(Take(some, i, k), line, x) <==> Live(some, line, x) || x == Addr(some[i].buf, k, line)
      {
        AllocKeeps(some, ps, line, i, k, x);
      }
      AllocKeeps(some, ps, line, i, k, 0);
      dbList := Take(dbList, i, k);
      return Some(Addr(dbList[i].buf, k, line));
    }

    /** The writes of mlx5_free_db. */
    method Release(db: nat)
      requires SizesOk(ps, line) && FreeDefined(dbList, ps, line, db)
      modifies this
      ensures dbList == Freed(old(dbList), ps, line, db)
    {
      var p := 0;
      while p < |dbList| && dbList[p].buf != PageOf(db, ps)
        invariant p <= |dbList| && Owner(dbList, ps, db, 0) == Owner(dbList, ps, db, p)
      {
        p := p + 1;
      }
      if p == |dbList| { return; }
      var i := (db - dbList[p].buf) / line;
      LapsIsDiv(db - dbList[p].buf, line);
      dbList := PutBack(dbList, p, i);
      if dbList[p].useCnt == 0 { dbList := Drop(dbList, p); }
    }

    /** mlx5_free_db, for any address whose bit exists. */
    method FreeDb(db: nat)
      requires Valid() && FreeDefined(dbList, ps, line, db)
      modifies this
      ensures dbList == Freed(old(dbList), ps, line, db)
      ensures Owner(old(dbList), ps, db, 0) == |old(dbList)| ==> dbList == old(dbList)
      ensures FreesOnly(old(dbList), ps, line, db, dbList) <==>
              Live(old(dbList), line, db) || Owner(old(dbList), ps, db, 0) == |old(dbList)|
    {
      FreeExact(dbList, ps, line, db, Freed(dbList, ps, line, db));
      Release(db);
    }

    /** An allocation followed by a free: what was handed out in between was the first free record,
        and the list is as it was, page for page. */
    method AllocThenFree(buf: Option<nat>) returns (db: Option<nat>, ghost between: seq<Page>)
      requires Valid() && (buf.Some? ==> Usable(dbList, ps, buf.value))
      modifies this
      ensures Valid() && dbList == old(dbList)
      ensures db.None? <==> buf.None? && FirstRoom(old(dbList), 0) == |old(dbList)|
      ensures db.Some? ==>
        && Handed(WithRoom(old(dbList), ps, line, buf), line, between, db.value)
        && Live(between, line, db.value) && !Live(dbList, line, db.value)
    {
      ghost var pages := dbList;
      db := AllocDbrec(buf);
      between := dbList;
      if db.Some? {
        FreeRestores(pages, ps, line, buf, dbList, db.value);
        FreeDb(db.value);
      }
    }
  }
}
