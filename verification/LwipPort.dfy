/** The transmit half of src/lwip_port.c, which flattens a chain of packet buffers into
    one frame. */
module LwipPort {
  import opened Machine
  import opened CLib
  import opened Pbuf
  import opened Ethernet

  const FRAME_MAX: nat := 1518

  /** The bytes of the leading buffers, up to the first that does not fit. */
  function Fitting(p: Chain, room: nat): (f: Frame)
    ensures |f| <= room
  {
    if p.Nil? || |p.payload| > room then []
    else p.payload + Fitting(p.next, room - |p.payload|)
  }

  /** `low_level_output`. */
  method LowLevelOutput(eth: Controller, p: Chain)
    modifies eth`tx
    ensures eth.tx == old(eth.tx) + TxWords(Fitting(p, FRAME_MAX))
  {
    var buffer := new byte[FRAME_MAX];
    var len := CopyChain(p, buffer);
    eth.Send(buffer, len);
  }

  /** Its loop: copy the chain into the buffer, stopping where it would overflow. */
  method CopyChain(p: Chain, buffer: array<byte>) returns (len: nat)
    modifies buffer
    ensures len <= buffer.Length && buffer[..len] == Fitting(p, buffer.Length)
  {
    len := 0;
    var q := p;
    ghost var done: seq<byte> := [];
    while q.Seg? && len + |q.payload| <= buffer.Length
      invariant len <= buffer.Length && buffer[..len] == done
      invariant done + Fitting(q, buffer.Length - len) == Fitting(p, buffer.Length)
      decreases q
    {
      ghost var rest := Fitting(q.next, buffer.Length - len - |q.payload|);
      assert done + (q.payload + rest) == (done + q.payload) + rest;
      MemcpyFrom(buffer, len, q.payload);
      done := done + q.payload;
      len := len + |q.payload|;
      q := q.next;
    }
    assert done + [] == done;
  }

  lemma {:induction false} FittingIsLongest(p: Chain, room: nat) returns (n: nat)
    ensures n <= |Payloads(p)|
    ensures Fitting(p, room) == Flatten(Payloads(p)[..n])
    ensures forall m :: 0 <= m <= |Payloads(p)| ==> (|Flatten(Payloads(p)[..m])| <= room <==> m <= n)
    decreases p
  {
    var parts := Payloads(p);
    if p.Nil? || |p.payload| > room {
      n := 0;
      forall m | 0 < m <= |parts| ensures |Flatten(parts[..m])| > room {
        assert parts[..m][0] == p.payload;
      }
    } else {
      var k := FittingIsLongest(p.next, room - |p.payload|);
      n := k + 1;
      forall m | 0 < m <= |parts|
        ensures Flatten(parts[..m]) == p.payload + Flatten(Payloads(p.next)[..m - 1])
      {
        assert parts[..m][1..] == Payloads(p.next)[..m - 1];
      }
    }
  }

  lemma {:induction false} FlattenPayloads(p: Chain)
    ensures Flatten(Payloads(p)) == Bytes(p)
  {
    if p.Seg? {
      FlattenPayloads(p.next);
      assert Payloads(p)[1..] == Payloads(p.next);
    }
  }

  /** What the controller is given: one frame, made of the first `n` buffers, where `n`
      is the most that fit in 1518 bytes. */
  lemma TransmitPath(p: Chain) returns (n: nat)
    ensures n <= |Payloads(p)|
    ensures DecodeTx(TxWords(Fitting(p, FRAME_MAX))) == [Flatten(Payloads(p)[..n])]
    ensures forall m :: 0 <= m <= |Payloads(p)| ==>
              (|Flatten(Payloads(p)[..m])| <= 1518 <==> m <= n)
  {
    n := FittingIsLongest(p, FRAME_MAX);
    TransmitsExactlyShortFrames(Fitting(p, FRAME_MAX));
  }

  /** The whole packet is sent exactly when its total length allows it. */
  lemma WholePacketIffItFits(p: Chain)
    requires WellFormed(p) && p.Seg?
    ensures DecodeTx(TxWords(Fitting(p, FRAME_MAX))) == [Bytes(p)] <==> p.totLen <= 1518
  {
    var n := FittingIsLongest(p, FRAME_MAX);
    TransmitsExactlyShortFrames(Fitting(p, FRAME_MAX));
    TotLenIsLength(p);
    FlattenPayloads(p);
    var parts := Payloads(p);
    assert parts[..|parts|] == parts;
  }
}
