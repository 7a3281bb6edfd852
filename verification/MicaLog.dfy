/** The MICA store's circular log (mica/mica.c). `log` is the memory, addressed modulo its
    capacity; `vlog` is everything written so far at ever-growing virtual offsets, of which
    the memory still holds the last `|log|` bytes. */
module MicaLog {

  import opened IndexMath

  /** The memory holds the last `|log|` virtual bytes. */
  ghost predicate Mirrors(log: seq<nat>, vlog: seq<nat>) {
    Recent(log, vlog, 0)
  }

  /** The memory holds the virtual bytes that stay in reach when the head moves on by `len`. */
  ghost predicate Recent(log: seq<nat>, vlog: seq<nat>, len: nat) {
    && |log| > 0
    && forall v: nat {:trigger HeldAt(log, vlog, v)} :: v < |vlog| && |vlog| + len <= v + |log| ==> HeldAt(log, vlog, v)
  }

  ghost predicate HeldAt(log: seq<nat>, vlog: seq<nat>, v: nat) {
    |log| > 0 && v < |vlog| && log[Pos(v, |log|)] == vlog[v]
  }

  /** What memcpy does: `bytes` at `at`, the rest as it was. */
  ghost predicate Copied(log: seq<nat>, at: nat, bytes: seq<nat>, log': seq<nat>) {
    && at + |bytes| <= |log'| == |log|
    && forall k {:trigger log'[k]} :: 0 <= k < |log| ==>
         log'[k] == if at <= k < at + |bytes| then bytes[k - at] else log[k]
  }

  ghost function Splice(vlog: seq<nat>, at: nat, bytes: seq<nat>): (r: seq<nat>)
    requires at + |bytes| <= |vlog|
    ensures Copied(vlog, at, bytes, r)
  {
    vlog[..at] + bytes + vlog[at + |bytes|..]
  }

  // ---------------------------------------------------------------------------
  // Positions
  // ---------------------------------------------------------------------------

  /** Within the window the memory holds, a stretch of memory is exactly a stretch of the log. */
  lemma SamePlace(v: nat, v0: nat, len: nat, cap: nat)
    requires cap > 0 && v0 + len <= v + cap && v < v0 + cap && Pos(v0, cap) + len <= cap
    ensures v0 <= v < v0 + len <==> Pos(v0, cap) <= Pos(v, cap) < Pos(v0, cap) + len
    ensures v0 <= v < v0 + len ==> Pos(v, cap) - Pos(v0, cap) == v - v0
  {
    if v0 <= v < v0 + len { PosAdd(v0, v - v0, cap); }
    if Pos(v0, cap) <= Pos(v, cap) < Pos(v0, cap) + len {
      var d := Pos(v, cap) - Pos(v0, cap);
      PosAdd(v0, d, cap);
      PosSame(v0 + d, v, cap);
    }
  }

  lemma PosSame(u: nat, v: nat, cap: nat)
    requires cap > 0 && u < v + cap && v < u + cap && Pos(u, cap) == Pos(v, cap)
    ensures u == v
  {
    if u < v { PosDiffer(u, v, cap); }
    if v < u { PosDiffer(v, u, cap); }
  }

  // ---------------------------------------------------------------------------
  // Appending
  // ---------------------------------------------------------------------------

  /** What the memory reads at virtual offsets `from` .. `to`. */
  ghost function ReadOut(log: seq<nat>, from: nat, to: nat): (r: seq<nat>)
    requires |log| > 0 && from <= to
    ensures |r| == to - from
  {
    if from == to then [] else ReadOut(log, from, to - 1) + [log[Pos(to - 1, |log|)]]
  }

  lemma {:induction false} ReadOutAt(log: seq<nat>, from: nat, to: nat, v: nat)
    requires |log| > 0 && from <= v < to
    ensures ReadOut(log, from, to)[v - from] == log[Pos(v, |log|)]
  {
    if v < to - 1 { ReadOutAt(log, from, to - 1, v); }
  }

  /** When the head moves on, the virtual log grows by what is then in memory there. */
  ghost function Grow(log: seq<nat>, vlog: seq<nat>, head': nat): (r: seq<nat>)
    requires |log| > 0 && |vlog| <= head'
    ensures |r| == head' && vlog <= r
  {
    vlog + ReadOut(log, |vlog|, head')
  }

  /** Copying an entry to the head and moving the head on leaves memory and virtual log in
      step, whatever is overwritten. */
  lemma AppendMirrors(log: seq<nat>, vlog: seq<nat>, bytes: seq<nat>, log': seq<nat>, head': nat)
    requires Mirrors(log, vlog) && |vlog| + |bytes| <= head'
    requires Copied(log, Pos(|vlog|, |log|), bytes, log')
    ensures Mirrors(log', Grow(log', vlog, head'))
  {
    forall v: nat | v < |vlog| && |vlog| + |bytes| <= v + |log| ensures HeldAt(log', vlog, v) {
      SamePlace(v, |vlog|, |bytes|, |log|);
      assert HeldAt(log, vlog, v);
    }
    GrowMirrors(log', vlog, |bytes|, head');
  }

  lemma GrowMirrors(log: seq<nat>, vlog: seq<nat>, len: nat, head': nat)
    requires Recent(log, vlog, len) && |vlog| + len <= head'
    ensures Mirrors(log, Grow(log, vlog, head'))
  {
    var vlog' := Grow(log, vlog, head');
    forall v: nat | v < |vlog'| <= v + |log| ensures HeldAt(log, vlog', v) {
      if v >= |vlog| {
        GrownByte(log, vlog, head', v);
      } else {
        assert HeldAt(log, vlog, v);
      }
    }
  }

  /** What was appended can be read back. */
  lemma AppendedBytes(log: seq<nat>, vlog: seq<nat>, bytes: seq<nat>, log': seq<nat>, head': nat)
    requires |log| > 0 && |vlog| + |bytes| <= head' && Copied(log, Pos(|vlog|, |log|), bytes, log')
    ensures Grow(log', vlog, head')[|vlog|..|vlog| + |bytes|] == bytes
  {
    var vlog' := Grow(log', vlog, head');
    forall k: nat | k < |bytes| ensures vlog'[|vlog| + k] == bytes[k] {
      AppendedByte(log, vlog, bytes, log', head', k);
    }
    SliceIs(vlog', |vlog|, bytes);
  }

  lemma SliceIs(s: seq<nat>, at: nat, bytes: seq<nat>)
    requires at + |bytes| <= |s| && forall k: nat {:trigger bytes[k]} :: k < |bytes| ==> s[at + k] == bytes[k]
    ensures s[at..at + |bytes|] == bytes
  {
  }

  lemma AppendedByte(log: seq<nat>, vlog: seq<nat>, bytes: seq<nat>, log': seq<nat>, head': nat, k: nat)
    requires |log| > 0 && |vlog| + |bytes| <= head' && Copied(log, Pos(|vlog|, |log|), bytes, log')
    requires k < |bytes|
    ensures Grow(log', vlog, head')[|vlog| + k] == bytes[k]
  {
    CopiedByte(log, |vlog|, bytes, log', k);
    GrownByte(log', vlog, head', |vlog| + k);
  }

  lemma CopiedByte(log: seq<nat>, head: nat, bytes: seq<nat>, log': seq<nat>, k: nat)
    requires |log| > 0 && k < |bytes| && Copied(log, Pos(head, |log|), bytes, log')
    ensures log'[Pos(head + k, |log|)] == bytes[k]
  {
    PosAdd(head, k, |log|);
  }

  lemma GrownByte(log: seq<nat>, vlog: seq<nat>, head': nat, v: nat)
    requires |log| > 0 && |vlog| <= v < head'
    ensures Grow(log, vlog, head')[v] == log[Pos(v, |log|)]
  {
    ReadOutAt(log, |vlog|, head', v);
  }

  // ---------------------------------------------------------------------------
  // Reading and updating in place
  // ---------------------------------------------------------------------------

  /** Overwriting bytes still in memory, in place. */
  lemma UpdateMirrors(log: seq<nat>, vlog: seq<nat>, v0: nat, bytes: seq<nat>, log': seq<nat>, vlog': seq<nat>)
    requires Mirrors(log, vlog) && v0 + |bytes| <= |vlog| <= v0 + |log|
    requires Copied(log, Pos(v0, |log|), bytes, log') && Copied(vlog, v0, bytes, vlog')
    ensures Mirrors(log', vlog')
  {
    forall v: nat | v < |vlog'| <= v + |log| ensures HeldAt(log', vlog', v) {
      assert HeldAt(log, vlog, v);
      SamePlace(v, v0, |bytes|, |log|);
    }
  }

  /** Reading bytes still in memory. */
  lemma ByteMirrored(log: seq<nat>, vlog: seq<nat>, o: nat, k: nat)
    requires Mirrors(log, vlog) && o + k < |vlog| <= o + |log| && Pos(o, |log|) + k < |log|
    ensures log[Pos(o, |log|) + k] == vlog[o + k]
  {
    PosAdd(o, k, |log|);
    assert HeldAt(log, vlog, o + k);
  }

  lemma SliceMirrored(log: seq<nat>, vlog: seq<nat>, o: nat, a: nat, b: nat)
    requires Mirrors(log, vlog) && a <= b && o + b <= |vlog| <= o + |log| && Pos(o, |log|) + b <= |log|
    ensures log[Pos(o, |log|) + a..Pos(o, |log|) + b] == vlog[o + a..o + b]
  {
    var mem, virt := log[Pos(o, |log|) + a..Pos(o, |log|) + b], vlog[o + a..o + b];
    forall k: nat | k < b - a ensures mem[k] == virt[k] { ByteMirrored(log, vlog, o, a + k); }
  }
}
