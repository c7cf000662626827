/** What the responder's answers satisfy: RFC 791, RFC 792, RFC 826, RFC 1071 and
    RFC 1624, over every packet it answers. */
module NetProperties {
  import opened Machine
  import opened Checksum
  import opened Ethernet
  import opened Net

  ghost predicate Echo(h: Host, b: seq<byte>, len: nat) {
    Readable(h, b, len) && AnswersEcho(h, b, len)
  }

  /** The announced length covers the ICMP checksum field. */
  predicate HasField(b: seq<byte>)
    requires |b| >= 34
  {
    TotalLength(b) >= 24
  }

  // ----- the IP header of a reply

  lemma RequestHeaderParts(h: Host, b: seq<byte>, len: nat)
    requires Echo(h, b, len)
    ensures b[14..34] == b[14..24] + [b[24], b[25]] + (b[26..30] + h.ip)
  {
  }

  lemma ReplyHeaderParts(h: Host, b: seq<byte>, len: nat)
    requires Echo(h, b, len)
    ensures EchoReply(h, b)[14..34] == b[14..24] + Le16(IpSum(h, b)) + IpAddresses(h, b)
  {
    var want := b[14..24] + Le16(IpSum(h, b)) + IpAddresses(h, b);
    forall i | 0 <= i < 20 ensures EchoReply(h, b)[14 + i] == want[i] {
      EchoReplyAt(h, b, 14 + i);
    }
  }

  lemma IpReplyVerifies(h: Host, b: seq<byte>, len: nat)
    requires Echo(h, b, len)
    ensures Rfc1071(Big, EchoReply(h, b)[14..34]) == 0
  {
    ReplyHeaderParts(h, b, len);
    StoredChecksumVerifies(b[14..24], IpAddresses(h, b));
  }

  // ----- the ICMP message of a reply

  function IcmpData(b: seq<byte>): seq<byte>
    requires |b| >= 38 && 24 <= TotalLength(b) <= |b| - ETH_HEADER
  {
    b[38..ETH_HEADER + TotalLength(b)]
  }

  lemma RequestMessageParts(h: Host, b: seq<byte>, len: nat)
    requires Echo(h, b, len) && HasField(b)
    ensures b[34..ETH_HEADER + TotalLength(b)] == [8, b[35]] + [b[36], b[37]] + IcmpData(b)
  {
  }

  lemma ReplyMessageParts(h: Host, b: seq<byte>, len: nat)
    requires Echo(h, b, len) && HasField(b)
    ensures EchoReply(h, b)[34..ETH_HEADER + TotalLength(b)] == [0, b[35]] + Le16(IcmpSum(b)) + IcmpData(b)
    ensures IcmpSum(b) == CodeChecksum([0, b[35]] + [0, 0] + IcmpData(b))
  {
    var n := TotalLength(b) - IP_HEADER;
    var want := [0, b[35]] + Le16(IcmpSum(b)) + IcmpData(b);
    forall i | 0 <= i < n ensures EchoReply(h, b)[34 + i] == want[i] {
      EchoReplyAt(h, b, 34 + i);
    }
    assert ([0, b[35]] + [0, 0] + b[38..])[..n] == [0, b[35]] + [0, 0] + IcmpData(b);
  }

  lemma IcmpReplyVerifies(h: Host, b: seq<byte>, len: nat)
    requires Echo(h, b, len) && HasField(b)
    ensures Rfc1071(Big, EchoReply(h, b)[34..ETH_HEADER + TotalLength(b)]) == 0
  {
    ReplyMessageParts(h, b, len);
    StoredChecksumVerifies([0, b[35]], IcmpData(b));
  }

  lemma ShortSums(x: byte, y: byte)
    ensures WordSum(Big, []) == 0 && WordSum(Big, [0]) == 0
    ensures WordSum(Big, [0, x]) == x
    ensures WordSum(Big, [0, x, y]) == x + 0x100 * y as int
    ensures WordSum(Little, [0, x, 0]) == 0x100 * x as int
  {
    var s, t: seq<byte> := [0, x, y], [0, x, 0];
    WordSumPair(Big, 0, x);
    WordSumPair(Little, 0, x);
    assert SumFirst(Big, [0], 0) == 0;
    assert SumFirst(Big, [y], 0) == 0 && SumFirst(Little, [0], 0) == 0;
    assert s == [0, x] + [y] && t == [0, x] + [0];
    WordSumConcat(Big, [0, x], [y]);
    WordSumConcat(Little, [0, x], [0]);
  }

  lemma ShortMessage(x: byte, y: byte, n: nat)
    requires n <= 3 && (n == 3 ==> y == 0xFF)
    ensures Rfc1071(Big, [0, x, y][..n]) == 0 <==> n == 3 && x == 0xFF
  {
    var whole: seq<byte> := [0, x, y];
    assert whole[..0] == [] && whole[..1] == [0] && whole[..2] == [0, x] && whole[..3] == whole;
    ShortSums(x, y);
    Rfc1071IsCanon(Big, whole[..n]);
  }

  lemma HalfSum(x: byte)
    ensures CodeChecksum([0, x, 0]) % 0x100 == 0xFF
  {
    ShortSums(x, 0);
    assert CodeChecksum([0, x, 0]) == 0xFFFF - 0x100 * x as int;
  }

  /** A message too short for its checksum field: of its at most three bytes the third is
      half of the stored checksum. */
  lemma ShortIcmpReply(h: Host, b: seq<byte>, len: nat)
    requires Echo(h, b, len) && !HasField(b)
    ensures Rfc1071(Big, EchoReply(h, b)[34..ETH_HEADER + TotalLength(b)]) == 0
       <==> TotalLength(b) == 23 && b[35] == 0xFF
  {
    var n := TotalLength(b) - IP_HEADER;
    var y := Le16(IcmpSum(b))[0];
    EchoReplyAt(h, b, 34);
    EchoReplyAt(h, b, 35);
    EchoReplyAt(h, b, 36);
    assert EchoReply(h, b)[34..34 + n] == [0, b[35], y][..n];
    if n == 3 {
      assert ([0, b[35]] + [0, 0] + b[38..])[..3] == [0, b[35], 0];
      HalfSum(b[35]);
    }
    ShortMessage(b[35], y, n);
  }

  lemma IcmpReplyVerifiesIff(h: Host, b: seq<byte>, len: nat)
    requires Echo(h, b, len)
    ensures Rfc1071(Big, EchoReply(h, b)[34..ETH_HEADER + TotalLength(b)]) == 0
       <==> HasField(b) || (TotalLength(b) == 23 && b[35] == 0xFF)
  {
    if HasField(b) {
      IcmpReplyVerifies(h, b, len);
    } else {
      ShortIcmpReply(h, b, len);
    }
  }

  // ----- the frame sent

  /** A frame that holds all that the total length field of its IP header announces
      (section 3.1 of RFC 791), with both checksums right in network byte order. */
  predicate ValidPacket(g: Frame) {
    && |g| >= 34
    && var total := 0x100 * g[16] as int + g[17] as int;
    && 20 <= total <= |g| - 14
    && Rfc1071(Big, g[14..34]) == 0
    && Rfc1071(Big, g[34..14 + total]) == 0
  }

  lemma SentFrame(h: Host, b: seq<byte>, len: nat)
    requires Echo(h, b, len)
    ensures Answer(h, b, len) == Some(EchoReply(h, b)[..len])
    ensures TotalLength(EchoReply(h, b)) == TotalLength(b)
  {
    EchoReplyAt(h, b, 16);
    EchoReplyAt(h, b, 17);
  }

  /** A packet that agrees with the reply as far as the reply's header announces. */
  lemma ValidPrefix(r: seq<byte>, g: seq<byte>)
    requires |r| >= 34 && IP_HEADER <= TotalLength(r) <= |r| - ETH_HEADER
    requires |g| >= ETH_HEADER + TotalLength(r) && g[..ETH_HEADER + TotalLength(r)] == r[..ETH_HEADER + TotalLength(r)]
    ensures ValidPacket(g)
       <==> && Rfc1071(Big, r[14..34]) == 0
            && Rfc1071(Big, r[34..ETH_HEADER + TotalLength(r)]) == 0
  {
    var end := ETH_HEADER + TotalLength(r);
    assert g[16] == g[..end][16] == r[16] && g[17] == g[..end][17] == r[17];
    assert g[14..34] == g[..end][14..34] == r[14..34];
    assert g[34..end] == g[..end][34..] == r[34..end];
  }

  lemma PrefixOfWire(r: Frame, len: nat, end: nat)
    requires end <= len <= |r|
    ensures OnWire(r[..len])[..end] == r[..end]
  {
    assert r[..len][..end] == r[..end];
  }

  lemma CompleteAnswer(h: Host, b: seq<byte>, len: nat)
    requires Echo(h, b, len) && len >= ETH_HEADER + TotalLength(b)
    ensures ValidPacket(OnWire(EchoReply(h, b)[..len]))
       <==> HasField(b) || (TotalLength(b) == 23 && b[35] == 0xFF)
  {
    SentFrame(h, b, len);
    IpReplyVerifies(h, b, len);
    IcmpReplyVerifiesIff(h, b, len);
    var r, end := EchoReply(h, b), ETH_HEADER + TotalLength(b);
    var g := OnWire(r[..len]);
    assert g[..end] == r[..end] by {
      PrefixOfWire(r, len, end);
    }
    ValidPrefix(r, g);
  }

  // ----- answers to frames cut short

  /** What the checksum counted and the frame does not hold: the bytes that followed the
      frame in the buffer, as far as the IP header announces, in their place in the
      message. */
  function Stale(b: seq<byte>, len: nat): (z: seq<byte>)
    requires |b| >= 34 && 34 <= len <= ETH_HEADER + TotalLength(b) <= |b|
    ensures |z| == TotalLength(b) - IP_HEADER
    ensures forall i :: 0 <= i < |z| ==> z[i] == if i < len - 34 then 0 else b[34 + i]
  {
    Zeros(len - 34) + b[len..ETH_HEADER + TotalLength(b)]
  }

  function StaleSum(b: seq<byte>, len: nat): nat
    requires |b| >= 34 && 34 <= len <= ETH_HEADER + TotalLength(b) <= |b|
  {
    WordSum(Big, Stale(b, len))
  }

  /** The stale bytes do not count, and more than they is left. */
  predicate StaleCancels(b: seq<byte>, len: nat)
    requires |b| >= 38 && 38 <= len <= ETH_HEADER + TotalLength(b) <= |b|
  {
    && StaleSum(b, len) % 0xFFFF == 0
    && (StaleSum(b, len) == 0 || b[35] != 0 || exists i :: 38 <= i < len && b[i] != 0)
  }

  /** When padding with zeros makes good for what was cut off. */
  predicate CutIsHarmless(b: seq<byte>, len: nat)
    requires |b| >= 38 && IP_HEADER <= TotalLength(b) <= |b| - ETH_HEADER && len < ETH_HEADER + TotalLength(b)
  {
    && len >= 37 && ETH_HEADER + TotalLength(b) <= MIN_FRAME
    && if len == 37 then b[35] == 0xFF && IcmpSum(b) % 0x100 == 0xFF else StaleCancels(b, len)
  }

  lemma CutBytes(r: Frame, len: nat)
    requires len <= |r|
    ensures var g := OnWire(r[..len]); forall i :: 0 <= i < |g| ==> g[i] == if i < len then r[i] else 0
  {
    var g := OnWire(r[..len]);
    assert forall i :: 0 <= i < len ==> g[i] == r[..len][i];
  }

  lemma CutHeader(r: Frame, len: nat)
    requires 34 <= len <= |r|
    ensures var g := OnWire(r[..len]); TotalLength(g) == TotalLength(r) && g[14..34] == r[14..34]
  {
    CutBytes(r, len);
  }

  /** A message of which no more than the zero type and the code is left. */
  lemma BareMessage(s: seq<byte>)
    requires forall i :: 0 <= i < |s| && i != 1 ==> s[i] == 0
    ensures Rfc1071(Big, s) != 0
  {
    VerifiesIff(Big, s);
    BareSum(s, Count(s));
  }

  lemma {:induction false} BareSum(s: seq<byte>, n: nat)
    requires n <= Count(s)
    requires forall i :: 0 <= i < |s| && i != 1 ==> s[i] == 0
    ensures SumFirst(Big, s, n) <= 0xFF
    ensures n > 1 ==> SumFirst(Big, s, n) == SumFirst(Big, s, 1)
  {
    if n > 0 {
      BareSum(s, n - 1);
    }
  }

  lemma BareFrame(g: Frame)
    requires |g| >= 36 && g[34] == 0 && forall i :: 36 <= i < |g| ==> g[i] == 0
    ensures !ValidPacket(g)
  {
    var end := ETH_HEADER + TotalLength(g);
    if 34 <= end <= |g| {
      BareMessage(g[34..end]);
    }
  }

  lemma CutBeforeField(h: Host, b: seq<byte>, len: nat)
    requires Echo(h, b, len) && len < 37
    ensures !ValidPacket(OnWire(EchoReply(h, b)[..len]))
  {
    CutBytes(EchoReply(h, b), len);
    EchoReplyAt(h, b, 34);
    BareFrame(OnWire(EchoReply(h, b)[..len]));
  }

  lemma CutSlice(r: Frame, len: nat, end: nat)
    requires 34 <= len <= end <= MIN_FRAME && len <= |r|
    ensures OnWire(r[..len])[34..end] == r[34..len] + Zeros(end - len)
  {
    CutBytes(r, len);
  }

  lemma GoodHeader(g: Frame, total: nat, message: seq<byte>)
    requires |g| >= 34 && IP_HEADER <= TotalLength(g) == total
    requires Rfc1071(Big, g[14..34]) == 0
    requires ETH_HEADER + total <= |g| ==> g[34..ETH_HEADER + total] == message
    ensures ValidPacket(g) <==> ETH_HEADER + total <= |g| && Rfc1071(Big, message) == 0
  {
  }

  /** The packet on the wire is valid exactly when its message is. */
  lemma CutPacket(h: Host, b: seq<byte>, len: nat)
    requires Echo(h, b, len) && 37 <= len < ETH_HEADER + TotalLength(b)
    ensures ValidPacket(OnWire(EchoReply(h, b)[..len]))
       <==> && ETH_HEADER + TotalLength(b) <= MIN_FRAME
            && Rfc1071(Big, Kept(h, b, len)) == 0
  {
    SentFrame(h, b, len);
    CutHeader(EchoReply(h, b), len);
    IpReplyVerifies(h, b, len);
    if ETH_HEADER + TotalLength(b) <= MIN_FRAME {
      CutSlice(EchoReply(h, b), len, ETH_HEADER + TotalLength(b));
    }
    GoodHeader(OnWire(EchoReply(h, b)[..len]), TotalLength(b), Kept(h, b, len));
  }

  /** The part of the reply's message that is in the frame, filled up with zeros. */
  ghost function Kept(h: Host, b: seq<byte>, len: nat): seq<byte>
    requires |b| >= 38 && IP_HEADER <= TotalLength(b) <= |b| - ETH_HEADER && 34 <= len <= ETH_HEADER + TotalLength(b)
  {
    EchoReply(h, b)[34..len] + Zeros(ETH_HEADER + TotalLength(b) - len)
  }

  lemma HalfField(h: Host, b: seq<byte>)
    requires |b| >= 38 && 24 <= TotalLength(b) <= |b| - ETH_HEADER
    ensures Rfc1071(Big, Kept(h, b, 37)) == 0 <==> b[35] == 0xFF && IcmpSum(b) % 0x100 == 0xFF
  {
    var s, n := Kept(h, b, 37), ETH_HEADER + TotalLength(b) - 38;
    EchoReplyAt(h, b, 34);
    EchoReplyAt(h, b, 35);
    EchoReplyAt(h, b, 36);
    assert s == [0, b[35]] + [IcmpSum(b) % 0x100, 0] + Zeros(n);
    ThreeBytesVerify(b[35], IcmpSum(b) % 0x100, n);
  }

  lemma ThreeBytesVerify(x: byte, y: byte, n: nat)
    ensures Rfc1071(Big, [0, x] + [y, 0] + Zeros(n)) == 0 <==> x == 0xFF && y == 0xFF
  {
    var zeros := Zeros(n);
    FieldSum(Big, [0, x], y, 0, zeros);
    WordSumPair(Big, 0, x);
    WordSumZero(Big, zeros);
    VerifiesIff(Big, [0, x] + [y, 0] + zeros);
  }

  lemma SplitSum(s: seq<byte>, a: seq<byte>, z: seq<byte>, k: nat)
    requires |s| == |a| == |z| && k <= |s|
    requires forall i :: 0 <= i < k ==> a[i] == s[i] && z[i] == 0
    requires forall i :: k <= i < |s| ==> a[i] == 0 && z[i] == s[i]
    ensures WordSum(Big, s) == WordSum(Big, a) + WordSum(Big, z)
  {
    SumPointwise(Big, s, a, z, Count(s));
  }

  lemma CutWords(r: seq<byte>, b: seq<byte>, len: nat)
    requires |b| >= 34 && 34 <= len <= ETH_HEADER + TotalLength(b) <= |b| == |r|
    requires forall i :: len <= i < ETH_HEADER + TotalLength(b) ==> r[i] == b[i]
    ensures WordSum(Big, r[34..ETH_HEADER + TotalLength(b)])
         == WordSum(Big, r[34..len] + Zeros(ETH_HEADER + TotalLength(b) - len)) + StaleSum(b, len)
  {
    var end := ETH_HEADER + TotalLength(b);
    SplitSum(r[34..end], r[34..len] + Zeros(end - len), Stale(b, len), len - 34);
  }

  lemma KeptSum(h: Host, b: seq<byte>, len: nat)
    requires |b| >= 38 && IP_HEADER <= TotalLength(b) <= |b| - ETH_HEADER && 38 <= len <= ETH_HEADER + TotalLength(b)
    ensures WordSum(Big, EchoReply(h, b)[34..ETH_HEADER + TotalLength(b)])
         == WordSum(Big, Kept(h, b, len)) + StaleSum(b, len)
  {
    var r := EchoReply(h, b);
    forall i | len <= i < ETH_HEADER + TotalLength(b) ensures r[i] == b[i] {
      EchoReplyAt(h, b, i);
    }
    CutWords(r, b, len);
  }

  /** Nothing is kept but zeros exactly when code and kept data are zero and the stale
      bytes brought the stored checksum to 0. */
  lemma KeptZero(h: Host, b: seq<byte>, len: nat)
    requires Echo(h, b, len) && 38 <= len < ETH_HEADER + TotalLength(b)
    requires StaleSum(b, len) % 0xFFFF == 0
    ensures WordSum(Big, Kept(h, b, len)) == 0
       <==> StaleSum(b, len) > 0 && b[35] == 0 && forall i :: 38 <= i < len ==> b[i] == 0
  {
    var s := Kept(h, b, len);
    WordSumZero(Big, s);
    if WordSum(Big, s) == 0 {
      IcmpReplyVerifies(h, b, len);
      VerifiesIff(Big, EchoReply(h, b)[34..ETH_HEADER + TotalLength(b)]);
      KeptSum(h, b, len);
      forall i | 34 <= i < len && (i == 35 || i >= 38) ensures b[i] == s[i - 34] {
        EchoReplyAt(h, b, i);
      }
    }
    if StaleSum(b, len) > 0 && b[35] == 0 && forall i :: 38 <= i < len ==> b[i] == 0 {
      StoredZero(h, b, len);
      forall i | 0 <= i < |s| ensures s[i] == 0 {
        EchoReplyAt(h, b, 34 + i);
      }
    }
  }

  lemma ZeroHead(data: seq<byte>)
    ensures WordSum(Big, [0, 0] + [0, 0] + data) == WordSum(Big, data)
  {
    FieldSum(Big, [0, 0], 0, 0, data);
    WordSumPair(Big, 0, 0);
  }

  /** There the stored checksum is 0. */
  lemma StoredZero(h: Host, b: seq<byte>, len: nat)
    requires Echo(h, b, len) && 38 <= len < ETH_HEADER + TotalLength(b)
    requires StaleSum(b, len) > 0 && StaleSum(b, len) % 0xFFFF == 0
    requires b[35] == 0 && forall i :: 38 <= i < len ==> b[i] == 0
    ensures IcmpSum(b) == 0
  {
    ReplyMessage(h, b, len);
    assert Stale(b, len) == [0, 0] + [0, 0] + IcmpData(b);
    ZeroHead(IcmpData(b));
    CanonFull(StaleSum(b, len));
    NtonsTwice(IcmpSum(b));
  }

  lemma CutAfterField(h: Host, b: seq<byte>, len: nat)
    requires Echo(h, b, len) && 38 <= len < ETH_HEADER + TotalLength(b)
    ensures Rfc1071(Big, Kept(h, b, len)) == 0 <==> StaleCancels(b, len)
  {
    var end := ETH_HEADER + TotalLength(b);
    VerifiesIff(Big, Kept(h, b, len));
    IcmpReplyVerifies(h, b, len);
    VerifiesIff(Big, EchoReply(h, b)[34..end]);
    KeptSum(h, b, len);
    MultipleDifference(WordSum(Big, Kept(h, b, len)), StaleSum(b, len));
    if StaleSum(b, len) % 0xFFFF == 0 {
      KeptZero(h, b, len);
    }
  }

  lemma MultipleDifference(a: nat, b: nat)
    requires (a + b) % 0xFFFF == 0
    ensures a % 0xFFFF == 0 <==> b % 0xFFFF == 0
  {
    var p, q := a / 0xFFFF, b / 0xFFFF;
    assert a == 0xFFFF * p + a % 0xFFFF && b == 0xFFFF * q + b % 0xFFFF;
  }

  // ----- exactly when an answer is valid

  /** The answer to an echo request, as it goes out, is a valid packet exactly when the
      announced length covers the ICMP checksum field (but for one length and code where
      half the field is enough) and the frame received holds all that was announced, or
      the padding makes good for what it does not hold. */
  lemma AnswerValidIff(h: Host, b: seq<byte>, len: nat)
    requires Echo(h, b, len)
    ensures Answer(h, b, len).Some?
    ensures ValidPacket(OnWire(Answer(h, b, len).value))
       <==> if len >= 14 + 0x100 * b[16] as int + b[17] as int
            then 0x100 * b[16] as int + b[17] as int >= 24
                 || (b[16] == 0 && b[17] == 23 && b[35] == 0xFF)
            else CutIsHarmless(b, len)
  {
    SentFrame(h, b, len);
    if len >= ETH_HEADER + TotalLength(b) {
      CompleteAnswer(h, b, len);
    } else if len < 37 {
      CutBeforeField(h, b, len);
    } else {
      CutPacket(h, b, len);
      if len == 37 {
        HalfField(h, b);
      } else {
        CutAfterField(h, b, len);
      }
    }
  }

  lemma ZerosCancel(b: seq<byte>, len: nat)
    requires |b| >= 38 && 38 <= len < ETH_HEADER + TotalLength(b) <= |b|
    requires forall i :: len <= i < ETH_HEADER + TotalLength(b) ==> b[i] == 0
    ensures StaleCancels(b, len)
  {
    WordSumZero(Big, Stale(b, len));
  }

  /** So a short request cut short in its data gets a valid answer if the buffer held zeros
      after it. */
  lemma ZerosAreMadeGood(h: Host, b: seq<byte>, len: nat)
    requires Echo(h, b, len) && 38 <= len < 14 + TotalLength(b) <= 60
    requires forall i :: len <= i < ETH_HEADER + TotalLength(b) ==> b[i] == 0
    ensures Answer(h, b, len).Some?
    ensures |Answer(h, b, len).value| == len && ValidPacket(OnWire(Answer(h, b, len).value))
  {
    ZerosCancel(b, len);
    SentFrame(h, b, len);
    AnswerValidIff(h, b, len);
  }

  /** Every complete echo request, told by its bytes, is answered by a valid echo reply:
      sent back to the Ethernet source from the host's own address, with the IP addresses
      exchanged, type 0, each checksum recomputed over its zeroed field, and every other
      byte, padding included, kept. */
  lemma EchoAnswerIsCorrect(h: Host, b: seq<byte>, len: nat)
    requires IsEchoRequest(h, b)
    requires 24 <= 0x100 * b[16] as int + b[17] as int <= len - 14 && len <= |b|
    ensures Readable(h, b, len) && Answer(h, b, len).Some?
    ensures var g := Answer(h, b, len).value;
            |g| == len && ValidPacket(OnWire(g)) && Rewritten(h, b, g) && Resummed(h, b, g)
  {
    SentFrame(h, b, len);
    AnswerValidIff(h, b, len);
    AnswerRewritten(h, b, len);
    AnswerResummed(h, b, len);
  }

  predicate Rewritten(h: Host, b: seq<byte>, g: Frame) {
    && 38 <= |g| <= |b|
    && g[..6] == b[6..12] && g[6..12] == h.mac && g[12..24] == b[12..24]
    && g[26..30] == h.ip && g[30..34] == b[26..30]
    && g[34] == 0 && g[35] == b[35] && g[38..] == b[38..|g|]
  }

  predicate Resummed(h: Host, b: seq<byte>, g: Frame) {
    && 38 <= |g| <= |b|
    && var end := 14 + 0x100 * b[16] as int + b[17] as int;
    && 38 <= end <= |b|
    && 0x100 * g[24] as int + g[25] as int == Rfc1071(Big, b[14..24] + [0, 0] + (h.ip + b[26..30]))
    && 0x100 * g[36] as int + g[37] as int == Rfc1071(Big, [0, b[35]] + [0, 0] + b[38..end])
  }

  lemma AnswerRewritten(h: Host, b: seq<byte>, len: nat)
    requires |b| >= 38 && IP_HEADER <= TotalLength(b) <= |b| - ETH_HEADER && 38 <= len <= |b|
    ensures Rewritten(h, b, EchoReply(h, b)[..len])
  {
    var r := EchoReply(h, b);
    EchoReplyLayout(h, b);
    SentLayout(r, len);
    assert r[38..len] == r[38..][..len - 38] == b[38..][..len - 38] == b[38..len];
  }

  lemma AnswerResummed(h: Host, b: seq<byte>, len: nat)
    requires Echo(h, b, len) && HasField(b) && 38 <= len <= |b|
    ensures Resummed(h, b, EchoReply(h, b)[..len])
  {
    StoredIp(h, b);
    StoredIcmp(h, b, len);
  }

  /** An IPv4 packet with an ICMP echo request for the host: protocol 1 and the destination
      address of section 3.1 of RFC 791, and type 8 of RFC 792. */
  predicate IsEchoRequest(h: Host, b: seq<byte>) {
    && |b| >= 38 && b[12] == 0x08 && b[13] == 0x00
    && b[23] == 1 && b[30..34] == h.ip && b[34] == 8
  }

  /** Which packets are answered, told by their bytes: ARP requests for the host's address
      and echo requests to it, and no others. */
  lemma AnsweredIff(h: Host, b: seq<byte>, len: nat)
    requires Readable(h, b, len)
    ensures Answer(h, b, len).Some?
       <==> && len >= 14
            && (|| (|b| >= 42 && b[12] == 0x08 && b[13] == 0x06 && b[20] == 0 && b[21] == 1 && b[38..42] == h.ip)
                || IsEchoRequest(h, b))
  {
  }

  /** The answer to an ARP request, field by field, whatever types it gives. */
  lemma ArpAnswer(h: Host, b: seq<byte>, len: nat)
    requires len >= 14 && |b| >= 42 && b[12] == 0x08 && b[13] == 0x06 && b[20] == 0 && b[21] == 1
    requires b[38..42] == h.ip
    ensures Readable(h, b, len)
    ensures Answer(h, b, len).Some?
    ensures var g := Answer(h, b, len).value;
            && |g| == 42 && g[..6] == b[6..12] && g[6..12] == h.mac && g[12..14] == [0x08, 0x06]
            && g[14..18] == b[14..18] && g[18..20] == [6, 4] && g[20..22] == [0, 2]
            && g[22..28] == h.mac && g[28..32] == h.ip
            && g[32..38] == b[6..12] && g[38..42] == b[28..32]
  {
    var g := ArpReply(h, b);
    forall i | 0 <= i < 42
      ensures i < 6 ==> g[i] == b[6..12][i]
      ensures 6 <= i < 12 ==> g[i] == h.mac[i - 6]
      ensures 14 <= i < 18 ==> g[i] == b[i]
      ensures 22 <= i < 28 ==> g[i] == h.mac[i - 22]
      ensures 28 <= i < 32 ==> g[i] == h.ip[i - 28]
      ensures 32 <= i < 38 ==> g[i] == b[6..12][i - 32]
      ensures 38 <= i ==> g[i] == b[28..32][i - 38]
    {
      ArpReplyAt(h, b, i);
    }
  }

  /** A buffer that holds the headers and all that is announced is enough for any packet. */
  lemma EnoughMemory(h: Host, b: seq<byte>, len: nat)
    requires len <= |b| && |b| >= 42
    requires 20 <= 0x100 * b[16] as int + b[17] as int <= |b| - 14
    ensures Readable(h, b, len)
  {
  }

  lemma StoredIp(h: Host, b: seq<byte>)
    requires |b| >= 38 && IP_HEADER <= TotalLength(b) <= |b| - ETH_HEADER
    ensures var r := EchoReply(h, b);
            0x100 * r[24] as int + r[25] as int == Rfc1071(Big, b[14..24] + [0, 0] + (h.ip + b[26..30]))
  {
    EchoReplyAt(h, b, 24);
    EchoReplyAt(h, b, 25);
    StoredField(IpSum(h, b));
    ShortCodeByteOrder(b[14..24] + [0, 0] + IpAddresses(h, b));
  }

  lemma StoredIcmp(h: Host, b: seq<byte>, len: nat)
    requires Echo(h, b, len) && HasField(b)
    ensures var r, end := EchoReply(h, b), 14 + 0x100 * b[16] as int + b[17] as int;
            0x100 * r[36] as int + r[37] as int == Rfc1071(Big, [0, b[35]] + [0, 0] + b[38..end])
  {
    EchoReplyAt(h, b, 36);
    EchoReplyAt(h, b, 37);
    StoredField(IcmpSum(b));
    ReplyMessageParts(h, b, len);
    ShortCodeByteOrder([0, b[35]] + [0, 0] + IcmpData(b));
  }

  /** The parts of a frame cut to `len`. */
  lemma SentLayout(r: Frame, len: nat)
    requires 38 <= len <= |r|
    ensures var g := r[..len];
            && g[..6] == r[..6] && g[6..12] == r[6..12] && g[12..24] == r[12..24]
            && g[26..30] == r[26..30] && g[30..34] == r[30..34] && g[38..] == r[38..len]
  {
    var g := r[..len];
    assert g[..6] == r[..6] && g[6..12] == r[6..12] && g[12..24] == r[12..24];
    assert g[26..30] == r[26..30] && g[30..34] == r[30..34] && g[38..] == r[38..len];
  }

  lemma EchoReplyLayout(h: Host, b: seq<byte>)
    requires |b| >= 38 && IP_HEADER <= TotalLength(b) <= |b| - ETH_HEADER
    ensures var r := EchoReply(h, b);
            && r[..6] == b[6..12] && r[6..12] == h.mac && r[12..24] == b[12..24]
            && r[26..30] == h.ip && r[30..34] == b[26..30]
            && r[34] == 0 && r[35] == b[35] && r[38..] == b[38..]
  {
    var r := EchoReply(h, b);
    forall i | 0 <= i < |b|
      ensures i < 6 ==> r[i] == b[6..12][i]
      ensures 6 <= i < 12 ==> r[i] == h.mac[i - 6]
      ensures 26 <= i < 34 ==> r[i] == IpAddresses(h, b)[i - 26]
      ensures i == 34 ==> r[i] == 0
      ensures 12 <= i < 24 || i == 35 || i >= 38 ==> r[i] == b[i]
    {
      EchoReplyAt(h, b, i);
    }
    assert r[26..34] == IpAddresses(h, b);
    assert r[26..30] == r[26..34][..4] && r[30..34] == r[26..34][4..];
  }

  // ----- against the request's own checksums

  lemma CanonNegated(s: nat, hc: uint16)
    requires s > 0
    requires 0xFFFF - Canon(s + hc) == 0
    ensures 0xFFFF - Canon(s) == if hc == 0xFFFF then 0 else hc
  {
    var a := CanonSplit(s + hc);
    var b := CanonSplit(s);
    assert Canon(s) + hc == 0xFFFF * (1 + a - b);
  }

  /** The header words other than the checksum, the same for request and reply. */
  ghost function HeaderSum(h: Host, b: seq<byte>): nat
    requires |b| >= 34
  {
    WordSum(Big, b[14..24]) + WordSum(Big, b[26..30]) + WordSum(Big, h.ip)
  }

  lemma RequestHeader(h: Host, b: seq<byte>, len: nat)
    requires Echo(h, b, len)
    ensures Rfc1071(Big, b[14..34]) == 0xFFFF - Canon(HeaderSum(h, b) + Word(Big, b[24], b[25]))
  {
    RequestHeaderParts(h, b, len);
    WordSumConcat(Big, b[26..30], h.ip);
    FieldChecksum(Big, b[14..24], b[24], b[25], b[26..30] + h.ip);
  }

  lemma ZeroedHeader(h: Host, b: seq<byte>)
    requires |b| >= 34
    ensures Ntons(IpSum(h, b)) == 0xFFFF - Canon(HeaderSum(h, b))
  {
    var zeroed := b[14..24] + [0, 0] + IpAddresses(h, b);
    assert Ntons(IpSum(h, b)) == Rfc1071(Big, zeroed) by {
      ShortCodeByteOrder(zeroed);
    }
    FieldChecksum(Big, b[14..24], 0, 0, IpAddresses(h, b));
    WordSumConcat(Big, h.ip, b[26..30]);
  }

  lemma StoredField(c: uint16)
    ensures Word(Big, Le16(c)[0], Le16(c)[1]) == Ntons(c)
  {
  }

  /** The rewrite only exchanges the two addresses, so a valid header checksum comes
      back unchanged; the one exception is 0xFFFF, the other zero, which becomes 0. */
  lemma IpChecksumKept(h: Host, b: seq<byte>, len: nat)
    requires Echo(h, b, len)
    requires Rfc1071(Big, b[14..34]) == 0
    ensures var r := EchoReply(h, b);
            var hc := Word(Big, b[24], b[25]);
            Word(Big, r[24], r[25]) == if hc == 0xFFFF then 0 else hc
  {
    EchoReplyAt(h, b, 24);
    EchoReplyAt(h, b, 25);
    StoredField(IpSum(h, b));
    ZeroedHeader(h, b);
    RequestHeader(h, b, len);
    assert b[14..24][9] == 1;
    WordSumZero(Big, b[14..24]);
    CanonNegated(HeaderSum(h, b), Word(Big, b[24], b[25]));
  }

  /** Equation 3 of RFC 1624: the checksum after a word `m` becomes `m'`. */
  function Rfc1624(hc: uint16, m: uint16, m': uint16): uint16 {
    0xFFFF - OnesAdd(OnesAdd(0xFFFF - hc, 0xFFFF - m), m')
  }

  lemma IncrementalUpdate(hc: uint16, m: uint16, m': uint16, rest: nat)
    requires m != 0xFFFF
    requires 0xFFFF - Canon(m + rest + hc) == 0
    ensures m' + rest > 0 ==> Rfc1624(hc, m, m') == 0xFFFF - Canon(m' + rest)
    ensures m' + rest == 0 ==> Rfc1624(hc, m, m') == 0
  {
    var a := CanonSplit(m + rest + hc);
    var x := 0xFFFF - hc + (0xFFFF - m) + m';
    CanonSelf(0xFFFF - hc);
    CanonAdd(0xFFFF - hc, 0xFFFF - m);
    CanonAdd(0xFFFF - hc + (0xFFFF - m), m');
    assert Rfc1624(hc, m, m') == 0xFFFF - Canon(x);
    assert m + rest + hc == 0xFFFF * (a + 1);
    SameCanon(x, m' + rest, 2, a + 1);
  }

  lemma CanonSelf(n: uint16)
    ensures Canon(n) == n
  {
  }

  lemma SameCanon(x: nat, y: nat, p: nat, q: nat)
    requires x > 0
    requires x + 0xFFFF * q == y + 0xFFFF * p
    ensures y > 0 ==> Canon(x) == Canon(y)
    ensures y == 0 ==> Canon(x) == 0xFFFF
  {
    var c := CanonSplit(x);
    var d := CanonSplit(y);
    assert Canon(x) - Canon(y) == 0xFFFF * (d + p - c - q);
  }

  lemma MessageChecksum(kind: byte, code: byte, c0: byte, c1: byte, data: seq<byte>)
    ensures Rfc1071(Big, [kind, code] + [c0, c1] + data)
         == 0xFFFF - Canon(Word(Big, kind, code) + WordSum(Big, data) + Word(Big, c0, c1))
  {
    FieldChecksum(Big, [kind, code], c0, c1, data);
    WordSumPair(Big, kind, code);
  }

  lemma RequestMessage(h: Host, b: seq<byte>, len: nat)
    requires Echo(h, b, len) && HasField(b)
    ensures Rfc1071(Big, b[34..ETH_HEADER + TotalLength(b)])
         == 0xFFFF - Canon(Word(Big, 8, b[35]) + WordSum(Big, IcmpData(b)) + Word(Big, b[36], b[37]))
  {
    RequestMessageParts(h, b, len);
    MessageChecksum(8, b[35], b[36], b[37], IcmpData(b));
  }

  lemma ReplyMessage(h: Host, b: seq<byte>, len: nat)
    requires Echo(h, b, len) && HasField(b)
    ensures Ntons(IcmpSum(b)) == 0xFFFF - Canon(Word(Big, 0, b[35]) + WordSum(Big, IcmpData(b)))
  {
    ReplyMessageParts(h, b, len);
    var zeroed := [0, b[35]] + [0, 0] + IcmpData(b);
    ShortCodeByteOrder(zeroed);
    MessageChecksum(0, b[35], 0, 0, IcmpData(b));
  }

  /** The code and everything after the checksum are zero. */
  predicate RestIsZero(b: seq<byte>)
    requires |b| >= 38 && 24 <= TotalLength(b) <= |b| - ETH_HEADER
  {
    b[35] == 0 && forall i :: 0 <= i < |IcmpData(b)| ==> IcmpData(b)[i] == 0
  }

  lemma RestSum(b: seq<byte>)
    requires |b| >= 38 && 24 <= TotalLength(b) <= |b| - ETH_HEADER
    ensures RestIsZero(b) <==> Word(Big, 0, b[35]) + WordSum(Big, IcmpData(b)) == 0
  {
    WordSumZero(Big, IcmpData(b));
  }

  lemma StoredChecksum(h: Host, b: seq<byte>, len: nat)
    requires Echo(h, b, len) && HasField(b)
    ensures var r := EchoReply(h, b);
            Word(Big, r[36], r[37]) == 0xFFFF - Canon(Word(Big, 0, b[35]) + WordSum(Big, IcmpData(b)))
  {
    EchoReplyAt(h, b, 36);
    EchoReplyAt(h, b, 37);
    StoredField(IcmpSum(b));
    ReplyMessage(h, b, len);
  }

  /** For a valid request, recomputing the ICMP checksum gives what section 3 of
      RFC 1624 gives for the type going from 8 to 0, except exactly when the code and
      everything after the checksum are zero: there the code stores 0xFFFF where the
      equation gives 0. */
  lemma IcmpChecksumIsIncremental(h: Host, b: seq<byte>, len: nat)
    requires Echo(h, b, len) && HasField(b)
    requires Rfc1071(Big, b[34..ETH_HEADER + TotalLength(b)]) == 0
    ensures var r := EchoReply(h, b);
            var stored := Word(Big, r[36], r[37]);
            var updated := Rfc1624(Word(Big, b[36], b[37]), Word(Big, 8, b[35]), Word(Big, 0, b[35]));
            if RestIsZero(b) then stored == 0xFFFF && updated == 0 else stored == updated
  {
    StoredChecksum(h, b, len);
    RequestMessage(h, b, len);
    RestSum(b);
    IncrementalUpdate(Word(Big, b[36], b[37]), Word(Big, 8, b[35]), Word(Big, 0, b[35]), WordSum(Big, IcmpData(b)));
  }

  // ----- ARP

  /** RFC 826, "Packet Reception": a reply only for the host's own hardware type and
      protocol, here Ethernet and IPv4, and for its own address; checking the address
      lengths as well is optional. The reply exchanges the address fields, with the local
      addresses in the sender fields, sets the reply opcode, and goes to the new target
      hardware address. */
  function Rfc826(h: Host, b: seq<byte>, checkLengths: bool): Option<Frame>
    requires |b| >= 42
  {
    if b[14..16] != [0, 1] || (checkLengths && b[18] != 6) then None
    else if b[16..18] != [8, 0] || (checkLengths && b[19] != 4) then None
    else if b[38..42] != h.ip || b[20..22] != [0, 1] then None
    else Some(Rfc826Frame(h, b))
  }

  function Rfc826Frame(h: Host, b: seq<byte>): Frame
    requires |b| >= 42
  {
    b[22..28] + h.mac + [0x08, 0x06]
    + b[14..20] + [0, 2] + h.mac + h.ip + b[22..28] + b[28..32]
  }

  /** What a request must be for the code to do as RFC 826 says: the code tests neither
      type, writes the address lengths itself, and takes the requester's hardware address
      from the Ethernet header. */
  predicate OrdinaryArp(b: seq<byte>)
    requires |b| >= 42
  {
    b[14..16] == [0, 1] && b[16..18] == [8, 0] && b[18] == 6 && b[19] == 4 && b[6..12] == b[22..28]
  }

  /** On every ARP packet, the code answers as RFC 826 prescribes, by either reading of
      the optional checks, exactly when it does not answer or the request is ordinary. */
  lemma ArpAnswerMeetsRfc826(h: Host, b: seq<byte>, len: nat, checkLengths: bool)
    requires Readable(h, b, len) && len >= 14 && |b| >= 42 && b[12] == 0x08 && b[13] == 0x06
    ensures Answer(h, b, len) == Rfc826(h, b, checkLengths)
       <==> (Answer(h, b, len).Some? ==> OrdinaryArp(b))
  {
    SameFrameIff(h, b);
    if AnswersArp(h, b, len) {
      assert b[20..22] == [0, 1];
    }
  }

  lemma SameFrameIff(h: Host, b: seq<byte>)
    requires |b| >= 42
    ensures ArpReply(h, b) == Rfc826Frame(h, b) <==> b[18] == 6 && b[19] == 4 && b[6..12] == b[22..28]
  {
    var x, y := ArpReply(h, b), Rfc826Frame(h, b);
    assert x[..6] == b[6..12] && y[..6] == b[22..28];
    assert x[18] == 6 && x[19] == 4 && y[18] == b[18] && y[19] == b[19];
    if b[18] == 6 && b[19] == 4 && b[6..12] == b[22..28] {
      assert b[14..20] == b[14..18] + [6, 4];
      assert [6, 4, 0, 2] == [6, 4] + [0, 2];
    }
  }
}
