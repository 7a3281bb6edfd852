/** Pages of doorbell records (drivers/libmlx5-1.0.2mlnx1/src/dbrec.c): a bitmap of the free
    records, kept in 64-bit words, and a count of those handed out. */
module DoorbellPages {

  import opened IndexMath

  const WORD_BITS := 64

  /** `free[k]` is bit `k % 64` of the word `k / 64`. */
  datatype Page = Page(buf: nat, numDb: nat, useCnt: nat, free: seq<bool>)

  // ---------------------------------------------------------------------------
  // Bitmaps
  // ---------------------------------------------------------------------------

  /** How many bits are clear. */
  ghost function Cleared(bits: seq<bool>): (n: nat)
    ensures n <= |bits|
  {
    if bits == [] then 0
    else Cleared(bits[..|bits| - 1]) + if bits[|bits| - 1] then 0 else 1
  }

  lemma {:induction false} ClearBit(bits: seq<bool>, k: nat)
    requires k < |bits| && bits[k]
    ensures Cleared(bits[k := false]) == Cleared(bits) + 1
  {
    var n := |bits| - 1;
    if k < n {
      ClearBit(bits[..n], k);
      assert bits[k := false][..n] == bits[..n][k := false];
    } else {
      assert bits[k := false][..n] == bits[..n];
    }
  }

  lemma SetBit(bits: seq<bool>, k: nat)
    requires k < |bits| && !bits[k]
    ensures Cleared(bits[k := true]) == Cleared(bits) - 1
  {
    ClearBit(bits[k := true], k);
    assert bits[k := true][k := false] == bits;
  }

  lemma {:induction false} NoneCleared(bits: seq<bool>)
    ensures Cleared(bits) == 0 <==> forall k: nat {:trigger bits[k]} :: k < |bits| ==> bits[k]
  {
    if bits != [] {
      var n := |bits| - 1;
      var init := bits[..n];
      NoneCleared(init);
      assert forall k: nat {:trigger init[k]} :: k < n ==> init[k] == bits[k];
      assert (forall k: nat {:trigger bits[k]} :: k < |bits| ==> bits[k]) <==>
        (bits[n] && forall k: nat {:trigger init[k]} :: k < n ==> init[k]);
    }
  }

  /** While fewer than `n` bits are clear, one of the first `n` is set. */
  lemma {:induction false} SomeSet(bits: seq<bool>, n: nat) returns (k: nat)
    requires Cleared(bits) < n <= |bits|
    ensures k < n && bits[k]
  {
    var m := |bits| - 1;
    if bits[m] && m < n {
      k := m;
    } else if m < n {
      k := SomeSet(bits[..m], n - 1);
    } else {
      k := SomeSet(bits[..m], n);
    }
  }

  // ---------------------------------------------------------------------------
  // Pages
  // ---------------------------------------------------------------------------

  /** The page size and the cache line size. */
  predicate SizesOk(ps: nat, line: nat) {
    0 < line <= ps
  }

  /** The bytes of `k` records. */
  function Span(k: nat, line: nat): nat {
    if k == 0 then 0 else Span(k - 1, line) + line
  }

  function Addr(buf: nat, k: nat, line: nat): nat {
    buf + Span(k, line)
  }

  lemma {:induction false} SpanIs(k: nat, line: nat)
    ensures Span(k, line) == k * line
  {
    if k > 0 {
      SpanIs(k - 1, line);
      assert k * line == (k - 1) * line + line;
    }
  }

  lemma {:induction false} SpanGrows(k: nat, m: nat, line: nat)
    requires k < m
    ensures Span(k, line) + line <= Span(m, line)
  {
    if k < m - 1 { SpanGrows(k, m - 1, line); }
  }

  /** The record an offset lies in. */
  lemma {:induction false} LapsSpan(n: nat, line: nat)
    requires line > 0
    ensures Span(Laps(n, line), line) <= n < Span(Laps(n, line), line) + line
  {
    if n >= line { LapsSpan(n - line, line); }
  }

  lemma LapsOfSpan(k: nat, line: nat)
    requires line > 0
    ensures Laps(Span(k, line), line) == k
  {
    var m := Laps(Span(k, line), line);
    LapsSpan(Span(k, line), line);
    if k < m { SpanGrows(k, m, line); } else if m < k { SpanGrows(m, k, line); }
  }

  ghost predicate PageOk(p: Page, ps: nat, line: nat) {
    && ps > 0 && Pos(p.buf, ps) == 0
    && p.numDb <= |p.free| && |p.free| % WORD_BITS == 0 && Span(p.numDb, line) <= ps < Span(p.numDb, line) + line
    && (forall k: nat {:trigger p.free[k]} :: p.numDb <= k < |p.free| ==> p.free[k])
    && p.useCnt == Cleared(p.free)
  }

  ghost predicate Apart(p: Page, q: Page, ps: nat) {
    p.buf + ps <= q.buf || q.buf + ps <= p.buf
  }

  ghost predicate PagesShape(pages: seq<Page>, ps: nat, line: nat) {
    && (forall i: nat {:trigger pages[i]} :: i < |pages| ==> PageOk(pages[i], ps, line))
    && (forall i: nat, j: nat {:trigger pages[i], pages[j]} :: i < j < |pages| ==> Apart(pages[i], pages[j], ps))
  }

  /** Between calls every page on the list has a record handed out. */
  ghost predicate PagesOk(pages: seq<Page>, ps: nat, line: nat) {
    PagesShape(pages, ps, line) && forall i: nat {:trigger pages[i]} :: i < |pages| ==> pages[i].useCnt > 0
  }

  /** Record `k` of page `i` is handed out, at address `db`. */
  ghost predicate At(pages: seq<Page>, line: nat, db: nat, i: nat, k: nat) {
    i < |pages| && k < |pages[i].free| && !pages[i].free[k] && db == Addr(pages[i].buf, k, line)
  }

  ghost predicate Live(pages: seq<Page>, line: nat, db: nat) {
    exists i: nat, k: nat :: At(pages, line, db, i, k)
  }

  lemma RecordInside(p: Page, ps: nat, line: nat, k: nat)
    requires PageOk(p, ps, line) && k < |p.free| && !p.free[k]
    ensures k < p.numDb && Span(k, line) + line <= ps
  {
    SpanGrows(k, p.numDb, line);
  }

  /** Records handed out lie inside their page, and no two share a cache line. */
  lemma RecordsApart(pages: seq<Page>, ps: nat, line: nat, db: nat, i: nat, k: nat, db2: nat, j: nat, m: nat)
    requires PagesShape(pages, ps, line) && SizesOk(ps, line)
    requires At(pages, line, db, i, k) && At(pages, line, db2, j, m)
    ensures pages[i].buf <= db && db + line <= pages[i].buf + ps
    ensures (i != j || k != m) ==> db + line <= db2 || db2 + line <= db
  {
    RecordInside(pages[i], ps, line, k);
    RecordInside(pages[j], ps, line, m);
    if i == j {
      if k < m { SpanGrows(k, m, line); } else if m < k { SpanGrows(m, k, line); }
    } else if i < j {
      assert Apart(pages[i], pages[j], ps);
    } else {
      assert Apart(pages[j], pages[i], ps);
    }
  }

  // ---------------------------------------------------------------------------
  // Handing out and taking back
  // ---------------------------------------------------------------------------

  function Take(pages: seq<Page>, i: nat, k: nat): seq<Page>
    requires i < |pages| && k < |pages[i].free|
  {
    pages[i := pages[i].(useCnt := pages[i].useCnt + 1, free := pages[i].free[k := false])]
  }

  function PutBack(pages: seq<Page>, i: nat, k: nat): seq<Page>
    requires i < |pages| && k < |pages[i].free| && pages[i].useCnt > 0
  {
    pages[i := pages[i].(useCnt := pages[i].useCnt - 1, free := pages[i].free[k := true])]
  }

  function Drop(pages: seq<Page>, i: nat): seq<Page>
    requires i < |pages|
  {
    pages[..i] + pages[i + 1..]
  }

  lemma TakeShape(pages: seq<Page>, ps: nat, line: nat, i: nat, k: nat)
    requires PagesShape(pages, ps, line) && i < |pages| && k < pages[i].numDb <= |pages[i].free| && pages[i].free[k]
    ensures PagesShape(Take(pages, i, k), ps, line)
  {
    ClearBit(pages[i].free, k);
    var pages' := Take(pages, i, k);
    assert PageOk(pages[i], ps, line);
    forall j: nat | j < |pages'| ensures PageOk(pages'[j], ps, line) { assert PageOk(pages[j], ps, line); }
    forall j: nat, m: nat | j < m < |pages'| ensures Apart(pages'[j], pages'[m], ps) {
      assert Apart(pages[j], pages[m], ps);
    }
  }

  lemma PutBackShape(pages: seq<Page>, ps: nat, line: nat, i: nat, k: nat)
    requires PagesShape(pages, ps, line) && i < |pages| && k < |pages[i].free| && !pages[i].free[k]
    ensures pages[i].useCnt > 0 && PagesShape(PutBack(pages, i, k), ps, line)
  {
    assert PageOk(pages[i], ps, line);
    SetBit(pages[i].free, k);
    var pages' := PutBack(pages, i, k);
    forall j: nat | j < |pages'| ensures PageOk(pages'[j], ps, line) { assert PageOk(pages[j], ps, line); }
    forall j: nat, m: nat | j < m < |pages'| ensures Apart(pages'[j], pages'[m], ps) {
      assert Apart(pages[j], pages[m], ps);
    }
  }

  /** Exactly one record more is handed out, and it was not before. */
  lemma TakeLive(pages: seq<Page>, ps: nat, line: nat, i: nat, k: nat, db: nat)
    requires i < |pages| && k < |pages[i].free| && pages[i].free[k]
    requires PagesShape(Take(pages, i, k), ps, line) && SizesOk(ps, line)
    ensures Live(Take(pages, i, k), line, db) <==> Live(pages, line, db) || db == Addr(pages[i].buf, k, line)
    ensures !Live(pages, line, Addr(pages[i].buf, k, line))
  {
    var pages', mine := Take(pages, i, k), Addr(pages[i].buf, k, line);
    assert At(pages', line, mine, i, k);
    if Live(pages, line, mine) {
      var j: nat, m: nat :| At(pages, line, mine, j, m);
      assert At(pages', line, mine, j, m);
      RecordsApart(pages', ps, line, mine, i, k, mine, j, m);
    }
    if Live(pages, line, db) {
      var j: nat, m: nat :| At(pages, line, db, j, m);
      assert At(pages', line, db, j, m);
    }
    if Live(pages', line, db) && db != mine {
      var j: nat, m: nat :| At(pages', line, db, j, m);
      assert At(pages, line, db, j, m);
    }
  }

  /** Taking a record and putting it back changes nothing. */
  lemma PutBackTake(pages: seq<Page>, i: nat, k: nat)
    requires i < |pages| && k < |pages[i].free|
    ensures pages[i].free[k] ==> PutBack(Take(pages, i, k), i, k) == pages
    ensures !pages[i].free[k] && pages[i].useCnt > 0 ==> Take(PutBack(pages, i, k), i, k) == pages
  {
    if pages[i].free[k] {
      assert pages[i].free[k := false][k := true] == pages[i].free;
    } else {
      assert pages[i].free[k := true][k := false] == pages[i].free;
    }
  }

  /** Exactly one record fewer is handed out. */
  lemma PutBackLive(pages: seq<Page>, ps: nat, line: nat, i: nat, k: nat, db: nat)
    requires PagesShape(pages, ps, line) && SizesOk(ps, line)
    requires i < |pages| && k < |pages[i].free| && !pages[i].free[k] && pages[i].useCnt > 0
    ensures Live(PutBack(pages, i, k), line, db) <==> Live(pages, line, db) && db != Addr(pages[i].buf, k, line)
  {
    PutBackTake(pages, i, k);
    TakeLive(PutBack(pages, i, k), ps, line, i, k, db);
  }

  /** A page with nothing handed out can go. */
  lemma DropShape(pages: seq<Page>, ps: nat, line: nat, i: nat)
    requires PagesShape(pages, ps, line) && i < |pages|
    ensures PagesShape(Drop(pages, i), ps, line)
  {
    var rest := Drop(pages, i);
    forall j: nat | j < |rest| ensures PageOk(rest[j], ps, line) {
      assert PageOk(pages[if j < i then j else j + 1], ps, line);
    }
    forall j: nat, m: nat | j < m < |rest| ensures Apart(rest[j], rest[m], ps) {
      assert Apart(pages[if j < i then j else j + 1], pages[if m < i then m else m + 1], ps);
    }
  }

  lemma DropLive(pages: seq<Page>, ps: nat, line: nat, i: nat, db: nat)
    requires PagesShape(pages, ps, line) && i < |pages| && pages[i].useCnt == 0
    ensures Live(Drop(pages, i), line, db) <==> Live(pages, line, db)
  {
    if Live(pages, line, db) {
      var j: nat, m: nat :| At(pages, line, db, j, m);
      assert j != i by {
        assert PageOk(pages[i], ps, line);
        NoneCleared(pages[i].free);
      }
      if j < i { DropKeepsAt(pages, i, line, db, j, m); } else { DropKeepsAt(pages, i, line, db, j - 1, m); }
    } else if Live(Drop(pages, i), line, db) {
      var j: nat, m: nat :| At(Drop(pages, i), line, db, j, m);
      DropKeepsAt(pages, i, line, db, j, m);
    }
  }

  lemma DropKeepsAt(pages: seq<Page>, i: nat, line: nat, db: nat, j: nat, m: nat)
    requires i < |pages|
    ensures At(Drop(pages, i), line, db, j, m) <==> At(pages, line, db, if j < i then j else j + 1, m)
  {
    var rest := Drop(pages, i);
    if j < |rest| { assert rest[j] == pages[if j < i then j else j + 1]; }
  }
}
