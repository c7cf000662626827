/** An input for each way in which the code departs from what one would expect, beside
    the theorems that say exactly when it does. The packets are for the kernel's own
    address. */
module Departures {
  import opened Machine
  import opened CLib
  import opened Checksum
  import opened Ethernet
  import opened Net
  import opened NetProperties

  const STATION: seq<byte> := [2, 0, 0, 0, 0, 1]
  const STATION_IP: seq<byte> := [192, 168, 1, 1]

  // ----- checksum

  /** All ones, one byte beyond the safe length. */
  lemma LostCarry()
    ensures exists s: seq<byte> :: |s| == 131075 && CodeChecksum(s) != Rfc1071(Little, s)
  {
    var s: seq<byte> := seq(131075, _ => 0xFF);
    AllOnes(s, 65537);
    CodeMeetsRfc1071(s);
  }

  // ----- ARP

  function Arp(source: seq<byte>, hardware: byte, protocol: seq<byte>, lengths: seq<byte>): (b: Frame)
    requires |source| == 6 && |protocol| == 2 && |lengths| == 2
    ensures |b| == 42
  {
    ZANOS.mac + source + [0x08, 0x06]
    + [0, hardware] + protocol + lengths + [0, 1] + STATION + STATION_IP + [0, 0, 0, 0, 0, 0] + ZANOS.ip
  }

  lemma ArpFields(source: seq<byte>, hardware: byte, protocol: seq<byte>, lengths: seq<byte>)
    requires |source| == 6 && |protocol| == 2 && |lengths| == 2
    ensures var b := Arp(source, hardware, protocol, lengths);
            && Readable(ZANOS, b, 42) && AnswersArp(ZANOS, b, 42) && IsArp(b)
            && (OrdinaryArp(b) <==> hardware == 1 && protocol == [8, 0] && lengths == [6, 4] && source == STATION)
  {
    var b := Arp(source, hardware, protocol, lengths);
    assert b[12] == 0x08 && b[13] == 0x06 && b[20] == 0 && b[21] == 1 && b[38..42] == ZANOS.ip;
    assert b[6..12] == source && b[22..28] == STATION;
    assert b[14..16] == [0, hardware] && b[16..18] == protocol;
    assert b[18] == lengths[0] && b[19] == lengths[1];
  }

  /** Requests with another hardware type, another protocol, wrong address lengths, or an
      Ethernet source that is not the ARP sender: each is answered, and not as RFC 826
      says. */
  lemma ArpDepartures(checkLengths: bool)
    ensures var b := Arp(STATION, 6, [8, 0], [6, 4]);
            Readable(ZANOS, b, 42) && Answer(ZANOS, b, 42).Some?
            && Answer(ZANOS, b, 42) != Rfc826(ZANOS, b, checkLengths)
    ensures var b := Arp(STATION, 1, [0x86, 0xDD], [6, 4]);
            Readable(ZANOS, b, 42) && Answer(ZANOS, b, 42).Some?
            && Answer(ZANOS, b, 42) != Rfc826(ZANOS, b, checkLengths)
    ensures var b := Arp(STATION, 1, [8, 0], [8, 4]);
            Readable(ZANOS, b, 42) && Answer(ZANOS, b, 42).Some?
            && Answer(ZANOS, b, 42) != Rfc826(ZANOS, b, checkLengths)
    ensures var b := Arp([2, 0, 0, 0, 0, 9], 1, [8, 0], [6, 4]);
            Readable(ZANOS, b, 42) && Answer(ZANOS, b, 42).Some?
            && Answer(ZANOS, b, 42) != Rfc826(ZANOS, b, checkLengths)
  {
    ArpDeparture(STATION, 6, [8, 0], [6, 4], checkLengths);
    ArpDeparture(STATION, 1, [0x86, 0xDD], [6, 4], checkLengths);
    ArpDeparture(STATION, 1, [8, 0], [8, 4], checkLengths);
    var other: seq<byte> := [2, 0, 0, 0, 0, 9];
    assert other[5] != STATION[5];
    ArpDeparture(other, 1, [8, 0], [6, 4], checkLengths);
  }

  lemma ArpDeparture(source: seq<byte>, hardware: byte, protocol: seq<byte>, lengths: seq<byte>, checkLengths: bool)
    requires |source| == 6 && |protocol| == 2 && |lengths| == 2
    requires hardware != 1 || protocol != [8, 0] || lengths != [6, 4] || source != STATION
    ensures var b := Arp(source, hardware, protocol, lengths);
            Readable(ZANOS, b, 42) && Answer(ZANOS, b, 42).Some?
            && Answer(ZANOS, b, 42) != Rfc826(ZANOS, b, checkLengths)
  {
    ArpFields(source, hardware, protocol, lengths);
    ArpAnswerMeetsRfc826(ZANOS, Arp(source, hardware, protocol, lengths), 42, checkLengths);
  }

  // ----- ping

  lemma EightBytes(s: seq<byte>)
    requires |s| == 8
    ensures WordSum(Big, s)
         == Word(Big, s[0], s[1]) + Word(Big, s[2], s[3]) + Word(Big, s[4], s[5]) + Word(Big, s[6], s[7])
  {
    assert s == [s[0], s[1]] + ([s[2], s[3]] + ([s[4], s[5]] + [s[6], s[7]]));
    WordSumConcat(Big, [s[0], s[1]], [s[2], s[3]] + ([s[4], s[5]] + [s[6], s[7]]));
    WordSumConcat(Big, [s[2], s[3]], [s[4], s[5]] + [s[6], s[7]]);
    WordSumConcat(Big, [s[4], s[5]], [s[6], s[7]]);
    WordSumPair(Big, s[0], s[1]);
    WordSumPair(Big, s[2], s[3]);
    WordSumPair(Big, s[4], s[5]);
    WordSumPair(Big, s[6], s[7]);
  }

  lemma TwentyBytes(s: seq<byte>)
    requires |s| == 20
    ensures WordSum(Big, s)
         == Word(Big, s[0], s[1]) + Word(Big, s[2], s[3]) + Word(Big, s[4], s[5]) + Word(Big, s[6], s[7])
            + Word(Big, s[8], s[9]) + Word(Big, s[10], s[11]) + Word(Big, s[12], s[13])
            + Word(Big, s[14], s[15]) + Word(Big, s[16], s[17]) + Word(Big, s[18], s[19])
  {
    EightBytes(s[..8]);
    EightBytes(s[8..16]);
    assert s == s[..8] + (s[8..16] + s[16..]);
    WordSumConcat(Big, s[..8], s[8..16] + s[16..]);
    WordSumConcat(Big, s[8..16], s[16..]);
    assert s[16..] == [s[16], s[17]] + [s[18], s[19]];
    WordSumConcat(Big, [s[16], s[17]], [s[18], s[19]]);
    WordSumPair(Big, s[16], s[17]);
    WordSumPair(Big, s[18], s[19]);
  }

  /** An echo request of 42 bytes. */
  function Ping(total: byte, id: seq<byte>, headerSum: seq<byte>, sum: seq<byte>, data: seq<byte>): (b: Frame)
    requires |id| == 2 && |headerSum| == 2 && |sum| == 2 && |data| == 4
    ensures |b| == 42
  {
    ZANOS.mac + STATION + [0x08, 0x00]
    + [0x45, 0, 0, total] + id + [0, 0, 64, 1] + headerSum + STATION_IP + ZANOS.ip
    + [8, 0] + sum + data
  }

  lemma PingFields(total: byte, id: seq<byte>, headerSum: seq<byte>, sum: seq<byte>, data: seq<byte>)
    requires |id| == 2 && |headerSum| == 2 && |sum| == 2 && |data| == 4 && 20 <= total <= 28
    ensures var b := Ping(total, id, headerSum, sum, data);
            && Echo(ZANOS, b, 42) && Echo(ZANOS, b, 38) && TotalLength(b) == total
            && b[14..34] == [0x45, 0, 0, total] + id + [0, 0, 64, 1] + headerSum + STATION_IP + ZANOS.ip
            && b[34..42] == [8, 0] + sum + data && b[38..42] == data
            && b[24] == headerSum[0] && b[25] == headerSum[1]
  {
    var b := Ping(total, id, headerSum, sum, data);
    assert b[12] == 0x08 && b[13] == 0x00 && b[16] == 0 && b[17] == total && b[23] == 1 && b[34] == 8;
    assert b[30..34] == ZANOS.ip;
  }

  const NO_ICMP: Frame := Ping(20, [0, 0], [0, 0], [0, 0], [0, 0, 0, 0])

  /** A request that announces no ICMP bytes is answered by an invalid packet. */
  lemma NothingAnnounced()
    ensures Echo(ZANOS, NO_ICMP, 42) && Answer(ZANOS, NO_ICMP, 42).Some?
    ensures !ValidPacket(OnWire(Answer(ZANOS, NO_ICMP, 42).value))
  {
    PingFields(20, [0, 0], [0, 0], [0, 0], [0, 0, 0, 0]);
    AnswerValidIff(ZANOS, NO_ICMP, 42);
  }

  const CUT: Frame := Ping(28, [0, 0], [0, 0], [0, 0], [0, 0, 0, 1])

  /** So is a frame cut short of its last four bytes, where a 1 followed it. */
  lemma CutShort()
    ensures Echo(ZANOS, CUT, 38) && Answer(ZANOS, CUT, 38).Some?
    ensures !ValidPacket(OnWire(Answer(ZANOS, CUT, 38).value))
  {
    PingFields(28, [0, 0], [0, 0], [0, 0], [0, 0, 0, 1]);
    assert Stale(CUT, 38) == [0, 0, 0, 0, 0, 0, 0, 1];
    EightBytes(Stale(CUT, 38));
    AnswerValidIff(ZANOS, CUT, 38);
  }

  const ZEROS_FOLLOW: Frame := Ping(28, [0, 0], [0, 0], [0, 0], [0, 0, 0, 0])

  /** Where only zeros followed it, the padding makes good for the cut. */
  lemma CutMadeGood()
    ensures Echo(ZANOS, ZEROS_FOLLOW, 38) && Answer(ZANOS, ZEROS_FOLLOW, 38).Some?
    ensures |Answer(ZANOS, ZEROS_FOLLOW, 38).value| == 38 && TotalLength(ZEROS_FOLLOW) == 28
    ensures ValidPacket(OnWire(Answer(ZANOS, ZEROS_FOLLOW, 38).value))
  {
    PingFields(28, [0, 0], [0, 0], [0, 0], [0, 0, 0, 0]);
    assert forall i :: 38 <= i < 42 ==> ZEROS_FOLLOW[i] == ZEROS_FOLLOW[38..42][i - 38];
    ZerosAreMadeGood(ZANOS, ZEROS_FOLLOW, 38);
  }

  /** A valid request whose header checksum is 0xFFFF, and whose message is zero but for
      its type and checksum. */
  const ZERO_PING: Frame := Ping(28, [0xF7, 0x8D], [0xFF, 0xFF], [0xF7, 0xFF], [0, 0, 0, 0])

  lemma ZeroPingHeader()
    ensures Echo(ZANOS, ZERO_PING, 42) && Rfc1071(Big, ZERO_PING[14..34]) == 0
    ensures ZERO_PING[24] == 0xFF && ZERO_PING[25] == 0xFF
  {
    PingFields(28, [0xF7, 0x8D], [0xFF, 0xFF], [0xF7, 0xFF], [0, 0, 0, 0]);
    TwentyBytes(ZERO_PING[14..34]);
    assert WordSum(Big, ZERO_PING[14..34]) == 4 * 0xFFFF;
    Rfc1071IsCanon(Big, ZERO_PING[14..34]);
  }

  lemma ZeroPingMessage()
    ensures TotalLength(ZERO_PING) == 28 && Rfc1071(Big, ZERO_PING[34..42]) == 0
    ensures ZERO_PING[36] == 0xF7 && ZERO_PING[37] == 0xFF && RestIsZero(ZERO_PING)
  {
    PingFields(28, [0xF7, 0x8D], [0xFF, 0xFF], [0xF7, 0xFF], [0, 0, 0, 0]);
    var s := ZERO_PING[34..42];
    EightBytes(s);
    assert s == [8, 0, 0xF7, 0xFF, 0, 0, 0, 0];
    assert WordSum(Big, s) == 0xFFFF;
    Rfc1071IsCanon(Big, s);
    assert forall i :: 34 <= i < 42 ==> ZERO_PING[i] == s[i - 34];
  }

  /** Its header checksum comes back as the other zero. */
  lemma OtherZero()
    ensures Echo(ZANOS, ZERO_PING, 42) && Rfc1071(Big, ZERO_PING[14..34]) == 0
    ensures Word(Big, ZERO_PING[24], ZERO_PING[25]) == 0xFFFF
    ensures Word(Big, EchoReply(ZANOS, ZERO_PING)[24], EchoReply(ZANOS, ZERO_PING)[25]) == 0
  {
    ZeroPingHeader();
    IpChecksumKept(ZANOS, ZERO_PING, 42);
  }

  /** For its message the code stores 0xFFFF, and the incremental update gives 0. */
  lemma ZeroEcho()
    ensures Echo(ZANOS, ZERO_PING, 42) && Rfc1071(Big, ZERO_PING[34..42]) == 0
    ensures Word(Big, EchoReply(ZANOS, ZERO_PING)[36], EchoReply(ZANOS, ZERO_PING)[37]) == 0xFFFF
    ensures Rfc1624(Word(Big, ZERO_PING[36], ZERO_PING[37]), Word(Big, 8, 0), Word(Big, 0, 0)) == 0
  {
    ZeroPingHeader();
    ZeroPingMessage();
    IcmpChecksumIsIncremental(ZANOS, ZERO_PING, 42);
  }

  // ----- reception

  const THREE_BYTES: seq<uint32> := [3 + 0x1_0000 * 7 + 0x100_0000 * 8, 9]
  const ONE_BYTE: seq<uint32> := [1 + 0x1_0000 * 7]

  /** A frame of three bytes with room for one comes back as its third byte. */
  lemma RoomForOne()
    ensures Carries(THREE_BYTES, [7, 8, 9]) && Ready(THREE_BYTES) && RxBytes(THREE_BYTES, 1) == [9]
  {
    var ws := THREE_BYTES;
    FourBytes(3, 0, 7, 8);
    FourBytes(9, 0, 0, 0);
    assert Unpack(ws) == WordBytes(ws[0]) + Unpack(ws[1..]) && Unpack(ws[1..]) == WordBytes(ws[1]);
    assert Unpack(ws)[2..5] == [7, 8, 9];
    ReceiveOne(ws, [7, 8, 9], [], 1);
    assert ws + [] == ws;
  }

  /** A frame of one byte comes back as two. */
  lemma FrameOfOne()
    ensures Carries(ONE_BYTE, [7]) && Ready(ONE_BYTE) && RxBytes(ONE_BYTE, 2) == [7, 0]
  {
    var ws := ONE_BYTE;
    assert Unpack(ws) == [1, 0, 7, 0] + Unpack(ws[1..]);
    ReceiveOne(ws, [7], [], 2);
    assert ws + [] == ws;
  }

  // ----- memory

  /** Copying two cells one place up repeats the first. */
  lemma SmearedCopy()
    ensures CopiedUp([1, 2, 3], [1, 1, 1], 1, 0, 2) && [1, 1, 1][1..3] != [1, 2, 3][0..2]
  {
    assert [1, 1, 1][1..3][1] == 1 && [1, 2, 3][0..2][1] == 2;
  }
}
