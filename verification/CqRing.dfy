/** Completion queue entries and the ring they live in (drivers/libmlx5-1.0.2mlnx1/src/cq.c).

    A 64-byte entry is sixteen 32-bit words, in host order. Words the driver's ring code
    does not look at are kept as `rest.w0` .. `rest.w13`; the last two words are kept as the fields
    they pack (sop and qpn; wqe_counter, signature and the op_own byte, which itself packs
    the opcode, the format, the solicited bit and the owner bit). */
module CqRing {

  import opened IndexMath

  datatype Slot = Slot(
    rest: Rest, rxHash: nat, srqnUidx: nat, byteCnt: nat, sop: nat, qpn: nat, wqeCounter: nat,
    opcode: nat, format: nat, owner: nat)

  /** The words and bits the ring code only copies. */
  datatype Rest = Rest(
    w0: nat, w1: nat, w2: nat, w4: nat, w5: nat, w6: nat, w7: nat, w9: nat, w10: nat, w12: nat, w13: nat,
    signature: nat, solicited: nat)

  // Opcodes.
  const REQ := 0
  const RESP_WR_IMM := 1
  const RESP_SEND := 2
  const RESP_SEND_IMM := 3
  const RESP_SEND_INV := 4
  const RESIZE_CQ := 5
  const REQ_ERR := 13
  const RESP_ERR := 14
  const INVALID := 15

  const COMPRESSED := 3

  /** The sixteen words of an entry as it lies in memory. */
  function WordsOf(s: Slot): (ws: seq<nat>)
    ensures |ws| == 16
  {
    [s.rest.w0, s.rest.w1, s.rest.w2, s.rxHash, s.rest.w4, s.rest.w5, s.rest.w6, s.rest.w7,
     s.srqnUidx, s.rest.w9, s.rest.w10, s.byteCnt, s.rest.w12, s.rest.w13,
     0x100_0000 * s.sop + s.qpn,
     0x1_0000 * s.wqeCounter + 0x100 * s.rest.signature + 16 * s.opcode + 4 * s.format + 2 * s.rest.solicited + s.owner]
  }

  /** An entry apart from who owns it. */
  function Payload(s: Slot): Slot { s.(owner := 0) }

  function Payloads(es: seq<Slot>): (r: seq<Slot>)
    ensures |r| == |es|
  {
    if es == [] then [] else [Payload(es[0])] + Payloads(es[1..])
  }

  predicate IsRequestor(opcode: nat) { opcode == REQ || opcode == REQ_ERR }

  predicate IsResponder(opcode: nat) {
    opcode == RESP_WR_IMM || opcode == RESP_SEND || opcode == RESP_SEND_IMM ||
    opcode == RESP_SEND_INV || opcode == RESP_ERR
  }

  /** get_sw_cqe: the slot of index `n` holds an entry software may read. */
  predicate Accept(ring: seq<Slot>, n: nat)
    requires |ring| > 0
  {
    var s := ring[Pos(n, |ring|)];
    s.opcode != INVALID && s.owner == Parity(n, |ring|)
  }

  /** Indices kept in 32 bits behave like unbounded ones: a ring of at most 2^31 entries
      sees neither the slot nor the owner bit change when the counter wraps. */
  lemma WrapHarmless(n: nat, size: nat, k: nat)
    requires size > 0 && k > 0 && 0x1_0000_0000 == size * (2 * k)
    ensures Pos(n % 0x1_0000_0000, size) == Pos(n, size)
    ensures Parity(n % 0x1_0000_0000, size) == Parity(n, size)
  {
    PosIsMod(n, size);
    PosIsMod(n % 0x1_0000_0000, size);
    ModMod(n, size, 2 * k);
    var c, w := n / 0x1_0000_0000, (n % 0x1_0000_0000) / size;
    assert n / size == c * (2 * k) + w;
    assert c * (2 * k) == 2 * (c * k);
  }
}
