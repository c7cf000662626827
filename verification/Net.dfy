/** The ARP and ICMP echo responder of src/net.c.

    A packet buffer is an array of bytes; the header structs of include/net.h are the
    byte offsets below, and a 16- or 32-bit field is compared byte by byte. */
module Net {
  import opened Machine
  import opened CLib
  import opened Checksum
  import opened Ethernet

  type Mac = s: seq<byte> | |s| == 6 witness [0, 0, 0, 0, 0, 0]
  type Ip = s: seq<byte> | |s| == 4 witness [0, 0, 0, 0]
  datatype Host = Host(mac: Mac, ip: Ip)

  const ZANOS: Host := Host([0xDE, 0xAD, 0xBE, 0xEF, 0x01, 0x02], [0xC0, 0xA8, 0x01, 0x02])

  const ETH_HEADER := 14
  const IP_HEADER := 20

  // ----- which packets are answered

  predicate IsArp(b: seq<byte>)
    requires |b| >= 14
  {
    b[12] == 0x08 && b[13] == 0x06
  }

  predicate IsIp(b: seq<byte>)
    requires |b| >= 14
  {
    b[12] == 0x08 && b[13] == 0x00
  }

  predicate IsArpRequest(b: seq<byte>)
    requires |b| >= 22
  {
    b[20] == 0 && b[21] == 1
  }

  predicate IsIcmpTo(h: Host, b: seq<byte>)
    requires |b| >= 34
  {
    b[30..34] == h.ip && b[23] == 1
  }

  /** The total length field of section 3.1 of RFC 791, as the code reads it. */
  function TotalLength(b: seq<byte>): (n: nat)
    requires |b| >= 34
    ensures n == 0x100 * b[16] as int + b[17] as int
  {
    SwappedWord(b[16], b[17]);
    Ntons(Word(Little, b[16], b[17]))
  }

  lemma SwappedWord(first: byte, second: byte)
    ensures Ntons(Word(Little, first, second)) == Word(Big, first, second)
  {
    var n: int := first as int + 0x100 * second as int;
    assert n % 0x100 == first && n / 0x100 == second;
  }

  /** The memory the handler touches: what each test it makes needs in order to be
      made, and for an echo request the message its IP header announces. */
  predicate Readable(h: Host, b: seq<byte>, len: nat) {
    len >= ETH_HEADER ==>
      && |b| >= 14
      && (IsArp(b) ==> |b| >= 22 && (IsArpRequest(b) ==> |b| >= 42))
      && (IsIp(b) ==> |b| >= 34 && (IsIcmpTo(h, b) ==> |b| >= 35 && (b[34] == 8 ==> EchoFits(b, len))))
  }

  predicate EchoFits(b: seq<byte>, len: nat)
    requires |b| >= 35
  {
    |b| >= 38 && IP_HEADER <= TotalLength(b) <= |b| - ETH_HEADER && len <= |b|
  }

  predicate AnswersArp(h: Host, b: seq<byte>, len: nat)
    requires Readable(h, b, len)
  {
    len >= ETH_HEADER && IsArp(b) && IsArpRequest(b) && b[38..42] == h.ip
  }

  predicate AnswersEcho(h: Host, b: seq<byte>, len: nat)
    requires Readable(h, b, len)
  {
    len >= ETH_HEADER && IsIp(b) && IsIcmpTo(h, b) && b[34] == 8
  }

  // ----- the answers

  function ArpReply(h: Host, b: seq<byte>): (f: Frame)
    requires |b| >= 42
    ensures |f| == 42
  {
    b[6..12] + h.mac + [0x08, 0x06]
    + b[14..18] + [6, 4, 0, 2] + h.mac + h.ip + b[6..12] + b[28..32]
  }

  /** The IP header of the reply around its checksum field. */
  function IpAddresses(h: Host, b: seq<byte>): seq<byte>
    requires |b| >= 34
  {
    h.ip + b[26..30]
  }

  function IpSum(h: Host, b: seq<byte>): uint16
    requires |b| >= 34
  {
    CodeChecksum(b[14..24] + [0, 0] + IpAddresses(h, b))
  }

  function IcmpSum(b: seq<byte>): uint16
    requires |b| >= 38 && IP_HEADER <= TotalLength(b) <= |b| - ETH_HEADER
  {
    CodeChecksum(([0, b[35]] + [0, 0] + b[38..])[..TotalLength(b) - IP_HEADER])
  }

  function EchoReply(h: Host, b: seq<byte>): (f: seq<byte>)
    requires |b| >= 38 && IP_HEADER <= TotalLength(b) <= |b| - ETH_HEADER
    ensures |f| == |b|
  {
    b[6..12] + h.mac + b[12..24] + Le16(IpSum(h, b)) + IpAddresses(h, b)
    + [0, b[35]] + Le16(IcmpSum(b)) + b[38..]
  }

  /** The frame a host sends in answer to the first `len` bytes of a buffer. */
  function Answer(h: Host, b: seq<byte>, len: nat): Option<Frame>
    requires Readable(h, b, len)
  {
    if AnswersArp(h, b, len) then Some(ArpReply(h, b))
    else if AnswersEcho(h, b, len) then Some(EchoReply(h, b)[..len])
    else None
  }

  // ----- the code

  class Responder {
    const host: Host
    const eth: Controller

    constructor (host: Host, eth: Controller)
      ensures this.host == host && this.eth == eth
    {
      this.host, this.eth := host, eth;
    }

    /** `net_handle_packet`. */
    method HandlePacket(packet: array<byte>, len: nat)
      requires Readable(host, packet[..], len)
      modifies packet, eth`tx
      ensures packet[..] == if AnswersEcho(host, old(packet[..]), len)
                            then EchoReply(host, old(packet[..])) else old(packet[..])
      ensures eth.tx == old(eth.tx) + match Answer(host, old(packet[..]), len)
                                      case None => []
                                      case Some(f) => TxWords(f)
    {
      ghost var b := packet[..];
      if len < ETH_HEADER {
        return;
      }
      if packet[12] == 0x08 && packet[13] == 0x06 {
        if packet[20] == 0 && packet[21] == 1 && packet[38..42] == host.ip {
          var reply := BuildArpReply(packet);
          eth.Send(reply, reply.Length);
          assert reply[..reply.Length] == reply[..];
        }
      } else if packet[12] == 0x08 && packet[13] == 0x00 {
        if packet[30..34] == host.ip && packet[23] == 1 {
          if packet[34] == 8 {
            RewriteEcho(packet);
            eth.Send(packet, len);
            assert packet[..len] == packet[..][..len];
          }
        }
      }
    }

    method BuildArpReply(packet: array<byte>) returns (reply: array<byte>)
      requires packet.Length >= 42
      ensures fresh(reply) && reply[..] == ArpReply(host, packet[..])
    {
      reply := new byte[42];
      MemcpyFrom(reply, 0, packet[6..12]);
      MemcpyFrom(reply, 6, host.mac);
      MemcpyFrom(reply, 12, [0x08, 0x06]);
      MemcpyFrom(reply, 14, packet[14..18]);
      MemcpyFrom(reply, 18, [6, 4, 0, 2]);
      MemcpyFrom(reply, 22, host.mac);
      MemcpyFrom(reply, 28, host.ip);
      MemcpyFrom(reply, 32, packet[6..12]);
      MemcpyFrom(reply, 38, packet[28..32]);
      forall i | 0 <= i < 42 ensures reply[i] == ArpReply(host, packet[..])[i] {
        ArpReplyAt(host, packet[..], i);
      }
    }

    /** Turn an echo request into its reply, in place. */
    method RewriteEcho(packet: array<byte>)
      requires packet.Length >= 38 && IP_HEADER <= TotalLength(packet[..]) <= packet.Length - ETH_HEADER
      modifies packet
      ensures packet[..] == EchoReply(host, old(packet[..]))
    {
      ghost var b := packet[..];
      PrepareIp(packet);
      ghost var s := packet[..];
      assert s[38..] == b[38..];
      PrepareIcmp(packet);
      SwapEthernet(packet);
      EchoReplyIs(host, b, packet[..]);
    }

    /** New addresses, then the header checksum over a zeroed field. */
    method PrepareIp(packet: array<byte>)
      requires packet.Length >= 34
      modifies packet
      ensures packet[24..26] == Le16(IpSum(host, old(packet[..])))
      ensures packet[26..34] == IpAddresses(host, old(packet[..]))
      ensures forall k :: 0 <= k < packet.Length && !(24 <= k < 34) ==> packet[k] == old(packet[k])
    {
      ghost var b := packet[..];
      SetAddresses(packet);
      ghost var s := packet[..];
      assert s[26..34] == packet[26..34];
      IpSumIs(host, b, s);
      StoreChecksum(packet, 14, 24, 20);
      assert packet[26..34] == s[26..34];
    }

    /** A checksum over a message with its own field set to zero, stored in that field. */
    method StoreChecksum(packet: array<byte>, start: nat, field: nat, length: nat)
      requires field + 2 <= packet.Length && start + length <= packet.Length
      modifies packet
      ensures packet[field..field + 2]
           == Le16(CodeChecksum(old(packet[..])[field := 0][field + 1 := 0][start..start + length]))
      ensures forall k :: 0 <= k < packet.Length && k != field && k != field + 1 ==> packet[k] == old(packet[k])
    {
      MemcpyFrom(packet, field, [0, 0]);
      assert packet[..] == old(packet[..])[field := 0][field + 1 := 0];
      assert packet[start..start + length] == packet[..][start..start + length];
      var sum := Compute(packet, start, length);
      MemcpyFrom(packet, field, Le16(sum));
      assert packet[field..field + 2] == Le16(sum);
    }

    method SetAddresses(packet: array<byte>)
      requires packet.Length >= 34
      modifies packet
      ensures packet[26..34] == IpAddresses(host, old(packet[..]))
      ensures forall k :: 0 <= k < packet.Length && !(26 <= k < 34) ==> packet[k] == old(packet[k])
    {
      ghost var b := packet[..];
      MemcpyFrom(packet, 30, packet[26..30]);
      MemcpyFrom(packet, 26, host.ip);
      assert packet[30..34] == b[26..30];
      assert packet[26..34] == packet[26..30] + packet[30..34];
    }

    /** The new type, then the ICMP checksum over a zeroed field. */
    method PrepareIcmp(packet: array<byte>)
      requires packet.Length >= 38 && IP_HEADER <= TotalLength(packet[..]) <= packet.Length - ETH_HEADER
      modifies packet
      ensures packet[34] == 0
      ensures packet[36..38] == Le16(IcmpSum(old(packet[..])))
      ensures forall k :: 0 <= k < packet.Length && k !in {34, 36, 37} ==> packet[k] == old(packet[k])
    {
      ghost var b := packet[..];
      packet[34] := 0;
      assert packet[..] == b[34 := 0];
      var icmpLen := Ntons(Word(Little, packet[16], packet[17])) - IP_HEADER;
      IcmpSumIs(b);
      StoreChecksum(packet, 34, 36, icmpLen);
    }

    method SwapEthernet(packet: array<byte>)
      requires packet.Length >= 14
      modifies packet
      ensures forall k :: 0 <= k < 6 ==> packet[k] == old(packet[k + 6])
      ensures forall k :: 6 <= k < 12 ==> packet[k] == host.mac[k - 6]
      ensures forall k :: 12 <= k < packet.Length ==> packet[k] == old(packet[k])
    {
      ghost var b := packet[..];
      Memcpy(packet, 0, 6, 6);
      assert forall k :: 0 <= k < 6 ==> packet[..][k] == b[k + 6];
      MemcpyFrom(packet, 6, host.mac);
    }
  }

  lemma IpSumIs(h: Host, b: seq<byte>, s: seq<byte>)
    requires |b| == |s| >= 34 && s[26..34] == IpAddresses(h, b)
    requires forall k :: 14 <= k < 26 ==> s[k] == b[k]
    ensures IpSum(h, b) == CodeChecksum(s[24 := 0][25 := 0][14..34])
  {
    var z := s[24 := 0][25 := 0];
    assert z[14..24] == b[14..24] && z[24..26] == [0, 0] && z[26..34] == s[26..34];
    assert z[14..34] == z[14..24] + z[24..26] + z[26..34];
  }

  lemma IcmpSumIs(b: seq<byte>)
    requires |b| >= 38 && IP_HEADER <= TotalLength(b) <= |b| - ETH_HEADER
    ensures IcmpSum(b) == CodeChecksum(b[34 := 0][36 := 0][37 := 0][34..34 + (TotalLength(b) - IP_HEADER)])
  {
    var z, n := b[34 := 0][36 := 0][37 := 0], TotalLength(b) - IP_HEADER;
    assert z[34..] == [0, b[35]] + [0, 0] + b[38..];
    assert z[34..34 + n] == z[34..][..n];
  }

  lemma ArpReplyAt(h: Host, b: seq<byte>, i: nat)
    requires |b| >= 42 && i < 42
    ensures ArpReply(h, b)[i]
         == if i < 6 then b[i + 6]
            else if i < 12 then h.mac[i - 6]
            else if i < 14 then [0x08, 0x06][i - 12]
            else if i < 18 then b[i]
            else if i < 22 then [6, 4, 0, 2][i - 18]
            else if i < 28 then h.mac[i - 22]
            else if i < 32 then h.ip[i - 28]
            else if i < 38 then b[i - 26]
            else b[i - 10]
  {
  }

  lemma EchoReplyIs(h: Host, b: seq<byte>, r: seq<byte>)
    requires |b| >= 38 && IP_HEADER <= TotalLength(b) <= |b| - ETH_HEADER && |r| == |b|
    requires forall i :: 0 <= i < 6 ==> r[i] == b[i + 6]
    requires forall i :: 6 <= i < 12 ==> r[i] == h.mac[i - 6]
    requires r[24..26] == Le16(IpSum(h, b)) && r[26..34] == IpAddresses(h, b)
    requires r[34] == 0 && r[36..38] == Le16(IcmpSum(b))
    requires forall i :: 12 <= i < 24 || i == 35 || 38 <= i < |b| ==> r[i] == b[i]
    ensures r == EchoReply(h, b)
  {
    forall i | 0 <= i < |b| ensures r[i] == EchoReply(h, b)[i] {
      EchoReplyAt(h, b, i);
      assert 24 <= i < 26 ==> r[i] == r[24..26][i - 24];
      assert 26 <= i < 34 ==> r[i] == r[26..34][i - 26];
      assert 36 <= i < 38 ==> r[i] == r[36..38][i - 36];
    }
  }

  lemma EchoReplyAt(h: Host, b: seq<byte>, i: nat)
    requires |b| >= 38 && IP_HEADER <= TotalLength(b) <= |b| - ETH_HEADER && i < |b|
    ensures EchoReply(h, b)[i]
         == if i < 6 then b[i + 6]
            else if i < 12 then h.mac[i - 6]
            else if 24 <= i < 26 then Le16(IpSum(h, b))[i - 24]
            else if 26 <= i < 34 then IpAddresses(h, b)[i - 26]
            else if i == 34 then 0
            else if 36 <= i < 38 then Le16(IcmpSum(b))[i - 36]
            else b[i]
  {
  }
}
