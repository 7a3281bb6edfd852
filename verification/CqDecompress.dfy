/** What a compressed completion stands for: the entries it expands to, written out of place.
    The driver does the same in place (CompletionQueue.DecompressIdx). */
module CqDecompress {

  import opened IndexMath
  import opened CqRing

  /** A mini entry: eight of them overlay the sixteen words of a slot. */
  datatype Mini = Mini(first: nat, byteCnt: nat)

  function MiniOf(s: Slot, j: nat): Mini
    requires j < 8
  {
    match j
    case 0 => Mini(s.rest.w0, s.rest.w1)
    case 1 => Mini(s.rest.w2, s.rxHash)
    case 2 => Mini(s.rest.w4, s.rest.w5)
    case 3 => Mini(s.rest.w6, s.rest.w7)
    case 4 => Mini(s.srqnUidx, s.rest.w9)
    case 5 => Mini(s.rest.w10, s.byteCnt)
    case 6 => Mini(s.rest.w12, s.rest.w13)
    case _ => Mini(0x100_0000 * s.sop + s.qpn,
                   0x1_0000 * s.wqeCounter + 0x100 * s.rest.signature
                   + 16 * s.opcode + 4 * s.format + 2 * s.rest.solicited + s.owner)
  }

  /** Mini entry `j` is words `2 * j` and `2 * j + 1` of its slot. */
  lemma MiniIsTwoWords(s: Slot, j: nat)
    requires j < 8
    ensures MiniOf(s, j).first == WordsOf(s)[2 * j] && MiniOf(s, j).byteCnt == WordsOf(s)[2 * j + 1]
  {
  }

  function MinisOf(s: Slot): (r: seq<Mini>)
    ensures |r| == 8
  {
    [MiniOf(s, 0), MiniOf(s, 1), MiniOf(s, 2), MiniOf(s, 3), MiniOf(s, 4), MiniOf(s, 5), MiniOf(s, 6), MiniOf(s, 7)]
  }

  // ---------------------------------------------------------------------------
  // A session and its entries
  // ---------------------------------------------------------------------------

  datatype Session = Session(title: Slot, minis: seq<Mini>, mpRq: bool)

  /** How many strides a message took, from its byte count field. */
  function Strides(byteCnt: nat): nat {
    byteCnt / 0x1_0000 % 0x8000
  }

  /** One expanded entry: the title with the mini entry's fields, the format cleared, the
      owner bit of its own index and, for a receive, the counter reached. */
  function Fill(title: Slot, mini: Mini, owner: nat, ctr: nat): Slot {
    if IsRequestor(title.opcode) then
      title.(byteCnt := mini.byteCnt,
             wqeCounter := mini.first / 0x1_0000, sop := mini.first / 0x100 % 0x100,
             format := 0, owner := owner)
    else
      title.(byteCnt := mini.byteCnt, rxHash := mini.first,
             wqeCounter := ctr, format := 0, owner := owner)
  }

  /** The counter after an entry; it is 16 bits wide. */
  function NextCtr(isReq: bool, mini: Mini, mpRq: bool, ctr: nat): nat {
    if isReq then ctr
    else (ctr + if mpRq then Strides(mini.byteCnt) else 1) % 0x1_0000
  }

  function CtrAt(s: Session, j: nat): nat
    requires j <= |s.minis|
  {
    if j == 0 then s.title.wqeCounter
    else NextCtr(IsRequestor(s.title.opcode), s.minis[j - 1], s.mpRq, CtrAt(s, j - 1))
  }

  /** Entry `j` of a session that starts at index `idx` of a ring of `size` slots. */
  function EntryOf(s: Session, idx: nat, size: nat, j: nat): Slot
    requires size > 0 && j < |s.minis|
  {
    Fill(s.title, s.minis[j], Parity(idx + j, size), CtrAt(s, j))
  }

  /** Its first `n` entries. */
  function Entries(s: Session, idx: nat, size: nat, n: nat): (es: seq<Slot>)
    requires size > 0 && n <= |s.minis|
    ensures |es| == n
  {
    if n == 0 then [] else Entries(s, idx, size, n - 1) + [EntryOf(s, idx, size, n - 1)]
  }

  lemma {:induction false} EntriesIndex(s: Session, idx: nat, size: nat, n: nat, j: nat)
    requires size > 0 && j < n <= |s.minis|
    ensures Entries(s, idx, size, n)[j] == EntryOf(s, idx, size, j)
  {
    if j < n - 1 { EntriesIndex(s, idx, size, n - 1, j); }
  }

  /** Receive counters: the title's, then one more for each entry, or for each stride the
      entries before it took. */
  ghost function StridesBefore(s: Session, j: nat): nat
    requires j <= |s.minis|
  {
    if j == 0 then 0 else StridesBefore(s, j - 1) + Strides(s.minis[j - 1].byteCnt)
  }

  lemma AddMod(a: nat, b: nat)
    ensures (a % 0x1_0000 + b) % 0x1_0000 == (a + b) % 0x1_0000
  {
  }

  lemma {:induction false} ReceiveCounters(s: Session, j: nat)
    requires !IsRequestor(s.title.opcode) && s.title.wqeCounter < 0x1_0000 && j <= |s.minis|
    ensures CtrAt(s, j) == (s.title.wqeCounter + if s.mpRq then StridesBefore(s, j) else j) % 0x1_0000
  {
    if j > 0 {
      ReceiveCounters(s, j - 1);
      var before := if s.mpRq then StridesBefore(s, j - 1) else j - 1;
      var more := if s.mpRq then Strides(s.minis[j - 1].byteCnt) else 1;
      AddMod(s.title.wqeCounter + before, more);
    }
  }

  // ---------------------------------------------------------------------------
  // Writing entries into the ring
  // ---------------------------------------------------------------------------

  /** The ring with the first `n` of `es` written from index `idx` on. */
  function Write(ring: seq<Slot>, idx: nat, es: seq<Slot>, n: nat): (r: seq<Slot>)
    requires |ring| > 0 && n <= |es|
    ensures |r| == |ring|
  {
    if n == 0 then ring
    else Write(ring, idx, es, n - 1)[Pos(idx + n - 1, |ring|) := es[n - 1]]
  }

  /** Writing touches those slots and no other. */
  lemma {:induction false} WriteAt(ring: seq<Slot>, idx: nat, es: seq<Slot>, n: nat, j: nat)
    requires |ring| > 0 && n <= |es| && n <= |ring| && j < |ring|
    ensures Write(ring, idx, es, n)[Pos(idx + j, |ring|)] ==
            if j < n then es[j] else ring[Pos(idx + j, |ring|)]
  {
    if n > 0 {
      WriteAt(ring, idx, es, n - 1, j);
      if j < n - 1 { PosDiffer(idx + j, idx + n - 1, |ring|); }
      if j > n - 1 { PosDiffer(idx + n - 1, idx + j, |ring|); }
    }
  }

  // ---------------------------------------------------------------------------
  // The session in a ring
  // ---------------------------------------------------------------------------

  function Title(ring: seq<Slot>, idx: nat): Slot
    requires |ring| > 0
  {
    ring[Pos(idx, |ring|)]
  }

  function Count(ring: seq<Slot>, idx: nat): nat
    requires |ring| > 0
  {
    Title(ring, idx).byteCnt
  }

  /** Mini entry `j` of the session at `idx`: the first eight follow the title, the others
      lie eight to a slot in every eighth slot. */
  function MiniAt(ring: seq<Slot>, idx: nat, j: nat): Mini
    requires |ring| > 0
  {
    MiniOf(ring[Pos(if j < 8 then idx + 1 else idx + j - j % 8, |ring|)], j % 8)
  }

  function Minis(ring: seq<Slot>, idx: nat, n: nat): (ms: seq<Mini>)
    requires |ring| > 0
    ensures |ms| == n
  {
    if n == 0 then [] else Minis(ring, idx, n - 1) + [MiniAt(ring, idx, n - 1)]
  }

  lemma {:induction false} MinisIndex(ring: seq<Slot>, idx: nat, n: nat, j: nat)
    requires |ring| > 0 && j < n
    ensures Minis(ring, idx, n)[j] == MiniAt(ring, idx, j)
  {
    if j < n - 1 { MinisIndex(ring, idx, n - 1, j); }
  }

  function SessionAt(ring: seq<Slot>, idx: nat, mpRq: bool): (s: Session)
    requires |ring| > 0
  {
    Session(Title(ring, idx), Minis(ring, idx, Count(ring, idx)), mpRq)
  }

  function SessionEntries(ring: seq<Slot>, idx: nat, mpRq: bool): (es: seq<Slot>)
    requires |ring| > 0
    ensures |es| == Count(ring, idx)
  {
    Entries(SessionAt(ring, idx, mpRq), idx, |ring|, Count(ring, idx))
  }

  /** The ring with the session at `idx` expanded, everything computed from the ring as it
      was. */
  function Expand(ring: seq<Slot>, idx: nat, mpRq: bool): (r: seq<Slot>)
    requires |ring| > 0
    ensures |r| == |ring|
  {
    Write(ring, idx, SessionEntries(ring, idx, mpRq), Count(ring, idx))
  }

  /** Every expanded entry is plain, is software-owned at its own index, carries its mini
      entry's byte count and otherwise keeps the title's identity. */
  lemma ExpandedAt(ring: seq<Slot>, idx: nat, mpRq: bool, j: nat)
    requires |ring| > 0 && j < Count(ring, idx) <= |ring|
    ensures var e := Title(Expand(ring, idx, mpRq), idx + j);
            && e == EntryOf(SessionAt(ring, idx, mpRq), idx, |ring|, j)
            && e.owner == Parity(idx + j, |ring|) && e.format == 0
            && e.opcode == Title(ring, idx).opcode && e.qpn == Title(ring, idx).qpn
            && e.byteCnt == MiniAt(ring, idx, j).byteCnt
  {
    WriteAt(ring, idx, SessionEntries(ring, idx, mpRq), Count(ring, idx), j);
    EntriesIndex(SessionAt(ring, idx, mpRq), idx, |ring|, Count(ring, idx), j);
    MinisIndex(ring, idx, Count(ring, idx), j);
  }

  lemma ExpandedElsewhere(ring: seq<Slot>, idx: nat, mpRq: bool, j: nat)
    requires |ring| > 0 && Count(ring, idx) <= j < |ring|
    ensures Title(Expand(ring, idx, mpRq), idx + j) == Title(ring, idx + j)
  {
    WriteAt(ring, idx, SessionEntries(ring, idx, mpRq), Count(ring, idx), j);
  }

  /** Where mini entry `j` of a session at `idx` lies: its two words are consecutive, eight mini entries
      to a slot, the first slot right behind the title and the others every eighth from it on. */
  lemma MiniLiesAt(ring: seq<Slot>, idx: nat, j: nat)
    requires |ring| > 0
    ensures var at := Title(ring, if j / 8 == 0 then idx + 1 else idx + 8 * (j / 8));
            && MiniAt(ring, idx, j).first == WordsOf(at)[2 * (j % 8)]
            && MiniAt(ring, idx, j).byteCnt == WordsOf(at)[2 * (j % 8) + 1]
  {
    MiniIsTwoWords(Title(ring, if j / 8 == 0 then idx + 1 else idx + 8 * (j / 8)), j % 8);
  }

  /** The strides a multi-packet receive took are bits 16 to 30 of its byte count. */
  lemma StridesField(byteCnt: nat)
    ensures Strides(byteCnt) < 0x8000
    ensures byteCnt == 0x8000_0000 * (byteCnt / 0x8000_0000) + 0x1_0000 * Strides(byteCnt) + byteCnt % 0x1_0000
  {
  }

  /** What every field of an expanded entry is: a send's counter and opcode are the upper half and the
      byte below it of the mini entry's first word; a receive's hash is that word, and its counter is
      the title's plus one for each entry before, or plus their strides; the rest is the title's. */
  lemma ExpandedFields(ring: seq<Slot>, idx: nat, mpRq: bool, j: nat)
    requires |ring| > 0 && j < Count(ring, idx) <= |ring|
    ensures var e, t, m := Title(Expand(ring, idx, mpRq), idx + j), Title(ring, idx), MiniAt(ring, idx, j);
            && e.byteCnt == m.byteCnt && e.format == 0 && e.owner == Parity(idx + j, |ring|)
            && e.rest == t.rest && e.srqnUidx == t.srqnUidx && e.qpn == t.qpn && e.opcode == t.opcode
            && (t.opcode == REQ || t.opcode == REQ_ERR ==>
                  && m.first == 0x1_0000 * e.wqeCounter + 0x100 * e.sop + m.first % 0x100 && e.sop < 0x100
                  && e.rxHash == t.rxHash)
            && (t.opcode != REQ && t.opcode != REQ_ERR ==>
                  && e.rxHash == m.first && e.sop == t.sop
                  && (t.wqeCounter < 0x1_0000 ==>
                        e.wqeCounter == (t.wqeCounter + if mpRq then StridesUpTo(ring, idx, j) else j) % 0x1_0000))
  {
    ExpandedAt(ring, idx, mpRq, j);
    var s := SessionAt(ring, idx, mpRq);
    MinisIndex(ring, idx, Count(ring, idx), j);
    if !IsRequestor(s.title.opcode) && s.title.wqeCounter < 0x1_0000 {
      ReceiveCounters(s, j);
      StridesSame(ring, idx, mpRq, j);
    }
  }

  /** The strides of the first `j` mini entries. */
  ghost function StridesUpTo(ring: seq<Slot>, idx: nat, j: nat): nat
    requires |ring| > 0
  {
    if j == 0 then 0 else StridesUpTo(ring, idx, j - 1) + Strides(MiniAt(ring, idx, j - 1).byteCnt)
  }

  lemma {:induction false} StridesSame(ring: seq<Slot>, idx: nat, mpRq: bool, j: nat)
    requires |ring| > 0 && j <= Count(ring, idx)
    ensures StridesBefore(SessionAt(ring, idx, mpRq), j) == StridesUpTo(ring, idx, j)
  {
    if j > 0 {
      StridesSame(ring, idx, mpRq, j - 1);
      MinisIndex(ring, idx, Count(ring, idx), j - 1);
    }
  }

  // ---------------------------------------------------------------------------
  // Steps of the in-place expansion
  // ---------------------------------------------------------------------------

  /** Filling a title that an earlier entry already overwrote gives the same entry. */
  lemma FillOver(title: Slot, mini0: Mini, owner0: nat, ctr0: nat, mini: Mini, owner: nat, ctr: nat)
    ensures Fill(Fill(title, mini0, owner0, ctr0), mini, owner, ctr) == Fill(title, mini, owner, ctr)
    ensures Fill(title, mini0, owner0, ctr0).opcode == title.opcode
  {
  }

  /** However much of the session has been written, the title's slot serves as the title. */
  lemma TitleServes(ring: seq<Slot>, idx: nat, s: Session, es: seq<Slot>, n: nat, mini: Mini, owner: nat, ctr: nat)
    requires |ring| > 0 && n <= |s.minis| && n <= |ring|
    requires s.title == Title(ring, idx) && es == Entries(s, idx, |ring|, |s.minis|)
    ensures var t := Write(ring, idx, es, n)[Pos(idx, |ring|)];
            Fill(t, mini, owner, ctr) == Fill(s.title, mini, owner, ctr) && t.opcode == s.title.opcode
  {
    WriteAt(ring, idx, es, n, 0);
    if n > 0 {
      EntriesIndex(s, idx, |ring|, |s.minis|, 0);
      FillOver(s.title, s.minis[0], Parity(idx, |ring|), CtrAt(s, 0), mini, owner, ctr);
    }
  }

  /** Writing entry `n` from whatever the title's slot holds by then. */
  lemma WriteStep(ring: seq<Slot>, idx: nat, s: Session, es: seq<Slot>, n: nat, title: Slot, e: Slot)
    requires |ring| > 0 && n < |s.minis| && n < |ring|
    requires s.title == Title(ring, idx) && es == Entries(s, idx, |ring|, |s.minis|)
    requires title == Write(ring, idx, es, n)[Pos(idx, |ring|)]
    requires e == Fill(title, s.minis[n], Parity(idx + n, |ring|), CtrAt(s, n))
    ensures Write(ring, idx, es, n)[Pos(idx + n, |ring|) := e] == Write(ring, idx, es, n + 1)
  {
    TitleServes(ring, idx, s, es, n, s.minis[n], Parity(idx + n, |ring|), CtrAt(s, n));
    EntriesIndex(s, idx, |ring|, |s.minis|, n);
  }

  /** `ms` starts with the mini entries of `s` from `n` on. */
  ghost predicate Loaded(ms: seq<Mini>, s: Session, n: nat) {
    |ms| == 8 && forall j {:trigger ms[j]} :: 0 <= j < 8 && n + j < |s.minis| ==> ms[j] == s.minis[n + j]
  }

  lemma FirstMinis(ring: seq<Slot>, idx: nat, mpRq: bool)
    requires |ring| > 0
    ensures Loaded(MinisOf(ring[Pos(idx + 1, |ring|)]), SessionAt(ring, idx, mpRq), 0)
  {
    var s, ms := SessionAt(ring, idx, mpRq), MinisOf(ring[Pos(idx + 1, |ring|)]);
    forall j: nat | j < 8 && j < |s.minis| ensures ms[j] == s.minis[j] {
      MinisIndex(ring, idx, |s.minis|, j);
    }
  }

  /** The slot holding the next eight mini entries has not been written yet. */
  lemma NextMinis(ring: seq<Slot>, idx: nat, mpRq: bool, n: nat)
    requires |ring| > 0 && 8 <= n < Count(ring, idx) <= |ring| && n % 8 == 0
    ensures Loaded(MinisOf(Write(ring, idx, SessionEntries(ring, idx, mpRq), n)[Pos(idx + n, |ring|)]),
                   SessionAt(ring, idx, mpRq), n)
  {
    var s := SessionAt(ring, idx, mpRq);
    WriteAt(ring, idx, SessionEntries(ring, idx, mpRq), n, n);
    var ms := MinisOf(ring[Pos(idx + n, |ring|)]);
    forall j: nat | j < 8 && n + j < |s.minis| ensures ms[j] == s.minis[n + j] {
      MinisIndex(ring, idx, |s.minis|, n + j);
      MiniInBlock(ring, idx, n, j);
    }
  }

  lemma MiniInBlock(ring: seq<Slot>, idx: nat, n: nat, j: nat)
    requires |ring| > 0 && 8 <= n && n % 8 == 0 && j < 8
    ensures MiniAt(ring, idx, n + j) == MinisOf(ring[Pos(idx + n, |ring|)])[j]
  {
    assert (n + j) % 8 == j;
  }
}
