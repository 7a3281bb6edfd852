/** When values all have one length (mica/mica.c:325-351 populates a store so, and HERD's
    clients keep to it): exactly which lengths keep every copy inside the log, lap after lap. */
module MicaLaps {

  import opened IndexMath
  import opened MicaLog
  import opened MicaIndex
  import opened MicaStore

  /** The head after `k` inserts of `len`-byte entries. */
  function HeadAfter(k: nat, len: nat, cap: nat): nat
    requires cap > 0
  {
    if k == 0 then 0 else NextHead(HeadAfter(k - 1, len, cap), len, cap)
  }

  /** An entry's share of the log: its length, aligned. */
  function Stride(len: nat): nat {
    (len + 7) / 8 * 8
  }

  /** `s` is the stride of `len`-byte entries, in a log of `cap` bytes. */
  predicate Sizes(len: nat, s: nat, cap: nat) {
    && CapOk(cap) && HEADER_BYTES <= len <= HEADER_BYTES + MAX_VALUE
    && len <= s < len + 8 && s % 8 == 0
  }

  // ---------------------------------------------------------------------------
  // One insert
  // ---------------------------------------------------------------------------

  /** On the first lap the head moves in strides until one more entry might not fit. */
  lemma FirstLapStep(head: nat, len: nat, s: nat, cap: nat)
    requires Sizes(len, s, cap) && head % 8 == 0 && head + NEAR_END < cap
    ensures NextHead(head, len, cap) == if head + s + NEAR_END < cap then head + s else cap
  {
    var h := head + s;
    assert (head + len + 7) / 8 * 8 == h && h < cap;
    assert (cap - h) % WRAP64 == cap - h;
    assert Pos(h + cap, cap) == h;
  }

  /** After it, in strides for good. */
  lemma LaterLapStep(head: nat, len: nat, s: nat, cap: nat)
    requires Sizes(len, s, cap) && head % 8 == 0 && cap <= head < VIRTUAL_BYTES
    ensures NextHead(head, len, cap) == head + s
  {
    var h := head + s;
    assert (head + len + 7) / 8 * 8 == h;
    assert (cap - h) % WRAP64 == cap - h + WRAP64;
  }

  lemma NextHeadGrows(head: nat, len: nat, cap: nat)
    requires cap > 0
    ensures NextHead(head, len, cap) >= head
  {
  }

  // ---------------------------------------------------------------------------
  // Multiples of the stride
  // ---------------------------------------------------------------------------

  function Times(m: nat, s: nat): nat {
    if m == 0 then 0 else Times(m - 1, s) + s
  }

  lemma {:induction false} TimesIs(m: nat, s: nat)
    ensures Times(m, s) == m * s
  {
    if m > 0 {
      TimesIs(m - 1, s);
      assert m * s == (m - 1) * s + s;
    }
  }

  lemma {:induction false} TimesGrows(a: nat, b: nat, s: nat)
    requires a <= b
    ensures Times(a, s) <= Times(b, s)
  {
    if a < b { TimesGrows(a, b - 1, s); }
  }

  lemma {:induction false} TimesAligned(m: nat, s: nat)
    requires s % 8 == 0
    ensures Times(m, s) % 8 == 0
  {
    if m > 0 { TimesAligned(m - 1, s); }
  }

  lemma {:induction false} TimesMinus(m: nat, q: nat, s: nat)
    requires q <= m
    ensures Times(m, s) == Times(q, s) + Times(m - q, s)
  {
    if q < m { TimesMinus(m - 1, q, s); }
  }

  /** A multiple of the stride leaves room for an entry when the capacity is one, too. */
  lemma {:induction false} MultipleFits(m: nat, s: nat, q: nat)
    requires s > 0 && q > 0 && Times(q, s) > 0
    ensures Pos(Times(m, s), Times(q, s)) + s <= Times(q, s)
    decreases m
  {
    if m < q {
      TimesGrows(m + 1, q, s);
    } else {
      TimesMinus(m, q, s);
      MultipleFits(m - q, s, q);
    }
  }

  // ---------------------------------------------------------------------------
  // Whole laps
  // ---------------------------------------------------------------------------

  /** The first lap takes `first` entries. */
  predicate LapTakes(first: nat, s: nat, cap: nat) {
    first > 0 && Times(first - 1, s) + NEAR_END < cap <= Times(first, s) + NEAR_END
  }

  lemma {:induction false} LapLength(k: nat, s: nat, cap: nat) returns (first: nat)
    requires s > 0 && Times(k, s) + NEAR_END < cap
    ensures LapTakes(first, s, cap)
    decreases cap - Times(k, s)
  {
    if cap <= Times(k + 1, s) + NEAR_END { first := k + 1; } else { first := LapLength(k + 1, s, cap); }
  }

  lemma {:induction false} InFirstLap(k: nat, len: nat, s: nat, cap: nat)
    requires Sizes(len, s, cap) && Times(k, s) + NEAR_END < cap
    ensures HeadAfter(k, len, cap) == Times(k, s)
  {
    if k > 0 {
      InFirstLap(k - 1, len, s, cap);
      TimesAligned(k - 1, s);
      FirstLapStep(Times(k - 1, s), len, s, cap);
    }
  }

  lemma FirstLapEnds(first: nat, len: nat, s: nat, cap: nat)
    requires Sizes(len, s, cap) && LapTakes(first, s, cap)
    ensures HeadAfter(first, len, cap) == cap
  {
    InFirstLap(first - 1, len, s, cap);
    TimesAligned(first - 1, s);
    FirstLapStep(Times(first - 1, s), len, s, cap);
  }

  /** Past the first lap the head keeps its stride, for as long as the virtual log lasts. */
  lemma {:induction false} InLaterLaps(first: nat, m: nat, len: nat, s: nat, cap: nat)
    requires Sizes(len, s, cap) && LapTakes(first, s, cap)
    ensures HeadAfter(first + m, len, cap) >= VIRTUAL_BYTES || HeadAfter(first + m, len, cap) == cap + Times(m, s)
    ensures cap + Times(m, s) < VIRTUAL_BYTES ==> HeadAfter(first + m, len, cap) == cap + Times(m, s)
  {
    if m == 0 {
      FirstLapEnds(first, len, s, cap);
    } else {
      InLaterLaps(first, m - 1, len, s, cap);
      LaterLapsStep(HeadAfter(first + m - 1, len, cap), m, len, s, cap);
    }
  }

  lemma LaterLapsStep(head: nat, m: nat, len: nat, s: nat, cap: nat)
    requires Sizes(len, s, cap) && m > 0
    requires head >= VIRTUAL_BYTES || head == cap + Times(m - 1, s)
    ensures NextHead(head, len, cap) >= VIRTUAL_BYTES || NextHead(head, len, cap) == cap + Times(m, s)
    ensures head < VIRTUAL_BYTES ==> NextHead(head, len, cap) == cap + Times(m, s)
  {
    if head < VIRTUAL_BYTES {
      TimesAligned(m - 1, s);
      LaterLapStep(head, len, s, cap);
    } else {
      NextHeadGrows(head, len, cap);
    }
  }

  // ---------------------------------------------------------------------------
  // Which lengths fit
  // ---------------------------------------------------------------------------

  /** Whether an insert at this head, if the virtual log has room for it, ends well. */
  ghost predicate Fits(head: nat, len: nat, cap: nat)
    requires cap > 0
  {
    head + len + 8 < VIRTUAL_BYTES ==> InsertEnd(head, len, cap) == Done
  }

  /** Whether every one does, however often the log goes round. */
  ghost predicate AllFit(len: nat, cap: nat)
    requires cap > 0
  {
    forall k: nat {:trigger HeadAfter(k, len, cap)} :: Fits(HeadAfter(k, len, cap), len, cap)
  }

  lemma FitsWhenDivides(first: nat, k: nat, len: nat, s: nat, cap: nat, q: nat)
    requires Sizes(len, s, cap) && LapTakes(first, s, cap) && q > 0 && cap == Times(q, s)
    ensures Fits(HeadAfter(k, len, cap), len, cap)
  {
    if k < first {
      TimesGrows(k, first - 1, s);
      InFirstLap(k, len, s, cap);
    } else {
      InLaterLaps(first, k - first, len, s, cap);
      LaterLapFits(k - first, len, s, cap, q);
    }
  }

  lemma LaterLapFits(m: nat, len: nat, s: nat, cap: nat, q: nat)
    requires Sizes(len, s, cap) && q > 0 && cap == Times(q, s)
    ensures Pos(cap + Times(m, s), cap) + len <= cap
  {
    TimesMinus(q + m, q, s);
    MultipleFits(q + m, s, q);
  }

  lemma SecondLapOverruns(len: nat, s: nat, cap: nat, q: nat, r: nat)
    requires Sizes(len, s, cap) && cap == Times(q, s) + r && 0 < r < s
    ensures cap + Times(q, s) + len + 8 < VIRTUAL_BYTES && Pos(cap + Times(q, s), cap) + len > cap
  {
    TimesAligned(q, s);
  }

  lemma OverrunsOtherwise(first: nat, len: nat, s: nat, cap: nat, q: nat, r: nat)
    requires Sizes(len, s, cap) && LapTakes(first, s, cap) && cap == Times(q, s) + r && 0 < r < s
    ensures InsertEnd(HeadAfter(first + q, len, cap), len, cap) == PastEnd
    ensures !Fits(HeadAfter(first + q, len, cap), len, cap)
  {
    SecondLapOverruns(len, s, cap, q, r);
    InLaterLaps(first, q, len, s, cap);
  }

  /** They all end well exactly when the stride divides the capacity, and otherwise one copies past the
      end. For a power of two that is a
      stride of 32 or 64: values of 7 to 14 bytes or of 39 to 46. */
  lemma AllFitIff(len: nat, cap: nat)
    requires CapOk(cap) && HEADER_BYTES <= len <= HEADER_BYTES + MAX_VALUE
    ensures AllFit(len, cap) <==> cap % Stride(len) == 0
    ensures cap % Stride(len) != 0 ==> exists k: nat :: InsertEnd(HeadAfter(k, len, cap), len, cap) == PastEnd
  {
    var s := Stride(len);
    var first := LapLength(0, s, cap);
    var q, r := cap / s, cap % s;
    TimesIs(q, s);
    assert cap == Times(q, s) + r;
    if r == 0 {
      forall k: nat ensures Fits(HeadAfter(k, len, cap), len, cap) {
        FitsWhenDivides(first, k, len, s, cap, q);
      }
    } else {
      OverrunsOtherwise(first, len, s, cap, q, r);
      assert InsertEnd(HeadAfter(first + q, len, cap), len, cap) == PastEnd;
    }
  }

  /** HERD's values of 32 bytes, in its log of 1 GB: some copy does not. */
  lemma HerdOverruns()
    ensures !AllFit(HEADER_BYTES + 32, 0x4000_0000)
  {
    AllFitIff(HEADER_BYTES + 32, 0x4000_0000);
  }
}
