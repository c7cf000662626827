/** Packet buffers of lwIP (include/lwip/pbuf.h). */
module Pbuf {
  import opened Machine

  /** A chain of buffers; `len` of a buffer is the length of its payload. */
  datatype Chain = Nil | Seg(payload: seq<byte>, totLen: nat, next: Chain)

  /** The invariant lwIP documents for a packet that is not a queue. */
  predicate WellFormed(p: Chain) {
    p.Seg? ==>
      && p.totLen == |p.payload| + (if p.next.Seg? then p.next.totLen else 0)
      && p.totLen < 0x1_0000
      && WellFormed(p.next)
  }

  function Payloads(p: Chain): seq<seq<byte>> {
    match p
    case Nil => []
    case Seg(payload, _, next) => [payload] + Payloads(next)
  }

  function Bytes(p: Chain): seq<byte> {
    match p
    case Nil => []
    case Seg(payload, _, next) => payload + Bytes(next)
  }

  /** The `totLen` of a well-formed packet is the number of its bytes. */
  lemma {:induction false} TotLenIsLength(p: Chain)
    requires WellFormed(p)
    ensures |Bytes(p)| == if p.Seg? then p.totLen else 0
  {
    if p.Seg? {
      TotLenIsLength(p.next);
    }
  }
}
