/** The frame path of src/eth.c: frames as bytes, the controller's data register as
    a stream of 32-bit words.

    The two directions use different layouts. A transmitted frame is a word holding
    its length, then the bytes four to a word. A received frame starts in the upper
    half of the word that holds its length. */
module Ethernet {
  import opened Machine
  import opened CLib

  type Frame = seq<byte>

  // ----- bytes in words

  function ByteOf(w: uint32, j: nat): byte
    requires j < 4
  {
    match j
    case 0 => w % 0x100
    case 1 => w / 0x100 % 0x100
    case 2 => w / 0x1_0000 % 0x100
    case 3 => w / 0x100_0000 % 0x100
  }

  function WordBytes(w: uint32): seq<byte> {
    [ByteOf(w, 0), ByteOf(w, 1), ByteOf(w, 2), ByteOf(w, 3)]
  }

  /** The bytes of a stream of words, lowest byte of each word first. */
  function Unpack(ws: seq<uint32>): (s: seq<byte>)
    ensures |s| == 4 * |ws|
  {
    if ws == [] then []
    else WordBytes(ws[0]) + Unpack(ws[1..])
  }

  lemma {:induction false} UnpackWord(ws: seq<uint32>, i: nat)
    requires i < |ws|
    ensures Unpack(ws)[4 * i..4 * (i + 1)] == WordBytes(ws[i])
  {
    if i > 0 {
      UnpackWord(ws[1..], i - 1);
      assert Unpack(ws)[4 * i..4 * (i + 1)] == Unpack(ws[1..])[4 * (i - 1)..4 * i];
    }
  }

  function Join(b0: byte, b1: byte, b2: byte, b3: byte): uint32 {
    b0 as int + 0x100 * b1 as int + 0x1_0000 * b2 as int + 0x100_0000 * b3 as int
  }

  /** The word the send loop builds from up to four bytes. */
  function PackWord(s: seq<byte>): uint32
    requires 1 <= |s| <= 4
  {
    Join(s[0], if 1 < |s| then s[1] else 0, if 2 < |s| then s[2] else 0, if 3 < |s| then s[3] else 0)
  }

  function Pack(s: seq<byte>): (ws: seq<uint32>)
    ensures |ws| == (|s| + 3) / 4
  {
    if s == [] then []
    else if |s| <= 4 then [PackWord(s)]
    else [PackWord(s[..4])] + Pack(s[4..])
  }

  lemma FourBytes(b0: byte, b1: byte, b2: byte, b3: byte)
    ensures var w := Join(b0, b1, b2, b3);
            ByteOf(w, 0) == b0 && ByteOf(w, 1) == b1 && ByteOf(w, 2) == b2 && ByteOf(w, 3) == b3
  {
    var w: int := Join(b0, b1, b2, b3);
    var high: int := 0x100 * b1 as int + 0x1_0000 * b2 as int + 0x100_0000 * b3 as int;
    assert w / 0x100 == high / 0x100;
    assert w / 0x1_0000 == b2 + 0x100 * b3 as int;
    assert w / 0x100_0000 == b3;
  }

  lemma PackWordBytes(s: seq<byte>)
    requires 1 <= |s| <= 4
    ensures WordBytes(PackWord(s))[..|s|] == s
  {
    FourBytes(s[0], if 1 < |s| then s[1] else 0, if 2 < |s| then s[2] else 0, if 3 < |s| then s[3] else 0);
  }

  lemma {:induction false} UnpackPack(s: seq<byte>)
    ensures Unpack(Pack(s))[..|s|] == s
    decreases |s|
  {
    if |s| > 4 {
      PackWordBytes(s[..4]);
      UnpackPack(s[4..]);
      var head, tail := WordBytes(PackWord(s[..4])), Unpack(Pack(s[4..]));
      assert Unpack(Pack(s)) == head + tail;
      assert (head + tail)[..|s|] == head + tail[..|s| - 4];
    } else if s != [] {
      PackWordBytes(s);
      assert Unpack([PackWord(s)]) == WordBytes(PackWord(s));
    }
  }

  // ----- transmission

  function TxWords(f: Frame): seq<uint32> {
    [|f| % 0x1_0000] + Pack(f)
  }

  function TxStream(fs: seq<Frame>): seq<uint32> {
    if fs == [] then [] else TxWords(fs[0]) + TxStream(fs[1..])
  }

  /** The frames the controller is given: each length word takes as many data words as it
      needs, and the frame is their bytes cut to the length. */
  function DecodeTx(ws: seq<uint32>): seq<Frame>
    decreases |ws|
  {
    if ws == [] then []
    else
      var len := ws[0] % 0x1_0000;
      var n := (len + 3) / 4;
      if 1 + n > |ws| then []
      else [Unpack(ws[1..1 + n])[..len]] + DecodeTx(ws[1 + n..])
  }

  const MIN_FRAME: nat := 60

  function Zeros(n: nat): (s: seq<byte>)
    ensures |s| == n && forall i :: 0 <= i < n ==> s[i] == 0
  {
    seq(n, _ => 0)
  }

  /** A frame as it goes out: `eth_init` has the controller pad short frames, with zeros,
      to the least length of Ethernet. */
  function OnWire(f: Frame): (g: Frame)
    ensures f <= g && |g| == (if |f| < 60 then 60 else |f|)
    ensures forall i :: |f| <= i < |g| ==> g[i] == 0
  {
    if |f| < MIN_FRAME then f + Zeros(MIN_FRAME - |f|) else f
  }

  lemma DecodeOne(f: Frame, rest: seq<uint32>)
    requires |f| < 0x1_0000
    ensures DecodeTx(TxWords(f) + rest) == [f] + DecodeTx(rest)
  {
    var ws := TxWords(f) + rest;
    var n := (|f| + 3) / 4;
    assert ws[0] == |f|;
    assert ws[1..1 + n] == Pack(f);
    assert ws[1 + n..] == rest;
    UnpackPack(f);
  }

  /** The words sent for a frame: its length, and its bytes four to a word, lowest first,
      with zeros after the last. */
  lemma {:induction false} SentWord(f: Frame, k: nat)
    requires 4 * k < |f|
    ensures |TxWords(f)| == 1 + (|f| + 3) / 4 && TxWords(f)[0] == |f| % 0x1_0000
    ensures TxWords(f)[1 + k]
         == f[4 * k] as int
            + 0x100 * (if 4 * k + 1 < |f| then f[4 * k + 1] else 0) as int
            + 0x1_0000 * (if 4 * k + 2 < |f| then f[4 * k + 2] else 0) as int
            + 0x100_0000 * (if 4 * k + 3 < |f| then f[4 * k + 3] else 0) as int
    decreases k
  {
    if k > 0 {
      SentWord(f[4..], k - 1);
      assert Pack(f)[k] == Pack(f[4..])[k - 1];
    } else {
      var word := Take(f, 4);
      assert Pack(f)[0] == PackWord(word);
    }
  }

  /** Frames sent one after another are the frames transmitted. */
  lemma {:induction false} TransmitRoundTrip(fs: seq<Frame>)
    requires forall i :: 0 <= i < |fs| ==> |fs[i]| < 0x1_0000
    ensures DecodeTx(TxStream(fs)) == fs
  {
    if fs != [] {
      DecodeOne(fs[0], TxStream(fs[1..]));
      TransmitRoundTrip(fs[1..]);
    }
  }

  /** The length field is 16 bits: a longer frame is not transmitted. */
  lemma TransmitsExactlyShortFrames(f: Frame)
    ensures DecodeTx(TxWords(f)) == [f] <==> |f| < 0x1_0000
  {
    if |f| < 0x1_0000 {
      DecodeOne(f, []);
      assert TxWords(f) + [] == TxWords(f);
    } else {
      DecodedLength(TxWords(f));
    }
  }

  lemma DecodedLength(ws: seq<uint32>)
    requires ws != []
    ensures DecodeTx(ws) != [] ==> |DecodeTx(ws)[0]| == ws[0] % 0x1_0000
  {
  }

  // ----- reception

  /** Words the code takes for a frame of `len` bytes: the fewest that hold its length
      field and the frame. */
  function RxCount(len: nat): (n: nat)
    ensures 4 * (n - 1) < 2 + len <= 4 * n
  {
    1 + if len > 2 then (len - 2 + 3) / 4 else 0
  }

  function RxLength(ws: seq<uint32>): nat
    requires ws != []
  {
    ws[0] % 0x1_0000
  }

  predicate Accepted(len: nat) {
    0 < len <= 1522
  }

  /** The stream holds the whole of its first frame. */
  predicate Ready(ws: seq<uint32>) {
    ws != [] && (Accepted(RxLength(ws)) ==> RxCount(RxLength(ws)) <= |ws|)
  }

  /** How the controller holds one frame of a length the driver accepts: the length in two
      bytes, then the bytes of the frame, in the fewest words that hold both. */
  ghost predicate Carries(ws: seq<uint32>, f: Frame) {
    && 0 < |f| <= 1522
    && 4 * (|ws| - 1) < 2 + |f| <= 4 * |ws|
    && ws[0] % 0x1_0000 == |f|
    && f == Unpack(ws)[2..2 + |f|]
  }

  /** The bytes `eth_receive` stores for an accepted length. Below two bytes of room
      it drops the two bytes of the first word. */
  function RxBytes(ws: seq<uint32>, maxLen: nat): seq<byte>
    requires Ready(ws) && Accepted(RxLength(ws))
  {
    var len := RxLength(ws);
    StoredOf(Unpack(ws[..RxCount(len)]), len, maxLen)
  }

  function StoredOf(bytes: seq<byte>, len: nat, maxLen: nat): seq<byte>
    requires |bytes| >= 4
  {
    if maxLen < 2 then Take(bytes[4..], maxLen)
    else Take(bytes[2..], if len < 2 then 2 else if len < maxLen then len else maxLen)
  }

  /** The stream after a call: one frame further on, or reset. */
  function RxRest(ws: seq<uint32>): seq<uint32>
    requires Ready(ws)
  {
    if Accepted(RxLength(ws)) then ws[RxCount(RxLength(ws))..] else []
  }

  /** The body of the send loop: bytes past the end are left out of the word. */
  method LoadWord(data: array<byte>, i: nat, len: nat) returns (word: uint32)
    requires i < len <= data.Length
    ensures word == PackWord(Take(data[i..len], 4))
  {
    word := data[i];
    if i + 1 < len { word := word + 0x100 * data[i + 1] as int; }
    if i + 2 < len { word := word + 0x1_0000 * data[i + 2] as int; }
    if i + 3 < len { word := word + 0x100_0000 * data[i + 3] as int; }
  }

  /** The inner receive loop: store the bytes of a word up to `limit`. */
  method StoreWord(word: uint32, buffer: array<byte>, start: nat, limit: nat) returns (stored: nat)
    requires start <= limit <= buffer.Length
    modifies buffer
    ensures stored == Min(start + 4, limit)
    ensures forall k :: start <= k < stored ==> buffer[k] == WordBytes(word)[k - start]
    ensures forall k :: 0 <= k < buffer.Length && !(start <= k < stored) ==> buffer[k] == old(buffer[k])
  {
    stored := start;
    for j := 0 to 4
      invariant stored == Min(start + j, limit)
      invariant forall k :: start <= k < stored ==> buffer[k] == WordBytes(word)[k - start]
      invariant forall k :: 0 <= k < buffer.Length && !(start <= k < stored) ==> buffer[k] == old(buffer[k])
    {
      if stored < limit {
        buffer[stored] := ByteOf(word, j);
        stored := stored + 1;
      }
    }
  }

  class Controller {
    var tx: seq<uint32>  // words written to the data register
    var rx: seq<uint32>  // words still to be read from it

    constructor ()
      ensures tx == [] && rx == []
    {
      tx, rx := [], [];
    }

    /** `eth_send`. */
    method Send(data: array<byte>, len: nat)
      requires len <= data.Length
      modifies this`tx
      ensures tx == old(tx) + TxWords(data[..len])
    {
      ghost var s := data[..len];
      tx := tx + [len % 0x1_0000];
      var i := 0;
      while i < len
        invariant tx + Unsent(s, i) == old(tx) + TxWords(s)
      {
        var word := LoadWord(data, i, len);
        assert data[i..len] == s[i..];
        NextWord(s, i);
        assert tx + ([word] + Unsent(s, i + 4)) == (tx + [word]) + Unsent(s, i + 4);
        tx := tx + [word];
        i := i + 4;
      }
    }

    /** `eth_receive`, where `npv` is the controller's count of waiting packets. */
    method Receive(npv: uint32, buffer: array<byte>, maxLen: nat) returns (stored: nat)
      requires maxLen <= buffer.Length
      requires npv % 0x100 != 0 ==> Ready(rx)
      modifies this`rx, buffer
      ensures npv % 0x100 == 0 ==> stored == 0 && rx == old(rx)
      ensures npv % 0x100 != 0 ==> rx == RxRest(old(rx))
      ensures npv % 0x100 != 0 && (old(rx)[0] % 0x1_0000 == 0 || old(rx)[0] % 0x1_0000 > 1522) ==>
                stored == 0 && rx == []
      ensures npv % 0x100 != 0 && 0 < old(rx)[0] % 0x1_0000 <= 1522 ==>
                stored <= buffer.Length && buffer[..stored] == RxBytes(old(rx), maxLen)
      ensures stored <= buffer.Length && buffer[stored..] == old(buffer[..])[stored..]
    {
      if npv % 0x100 == 0 {
        return 0;
      }
      ghost var rx' := rx;
      var lenWord := rx[0];
      rx := rx[1..];
      var len := lenWord % 0x1_0000;
      if len == 0 || len > 1522 {
        rx := [];
        return 0;
      }
      RxBytesInOrder(rx', maxLen);
      assert rx[..RxCount(len) - 1] == rx'[1..RxCount(len)];
      stored := StoreFrame(lenWord, buffer, maxLen);
    }

    /** `eth_receive` once the first word is read and its length accepted. */
    method StoreFrame(lenWord: uint32, buffer: array<byte>, maxLen: nat) returns (stored: nat)
      requires maxLen <= buffer.Length
      requires RxCount(lenWord % 0x1_0000) - 1 <= |rx|
      modifies this`rx, buffer
      ensures rx == old(rx)[RxCount(lenWord % 0x1_0000) - 1..]
      ensures var head := RxHead(lenWord, maxLen);
              var body := Unpack(old(rx)[..RxCount(lenWord % 0x1_0000) - 1]);
              stored == RxStored(lenWord % 0x1_0000, maxLen) <= buffer.Length
              && buffer[..stored] == head + body[..stored - |head|]
      ensures buffer[stored..] == old(buffer[..])[stored..]
    {
      var len := lenWord % 0x1_0000;
      stored := 0;
      if maxLen >= 2 {
        buffer[0] := ByteOf(lenWord, 2);
        buffer[1] := ByteOf(lenWord, 3);
        stored := 2;
      }
      var bytesToRead := if len > 2 then len - 2 else 0;
      var wordsToRead := (bytesToRead + 3) / 4;
      assert buffer[..stored] == RxHead(lenWord, maxLen);
      assert wordsToRead == RxCount(len) - 1;
      stored := ReadWords(wordsToRead, buffer, stored, Min(bytesToRead + 2, maxLen));
    }

    /** The outer receive loop. */
    method ReadWords(count: nat, buffer: array<byte>, start: nat, limit: nat) returns (stored: nat)
      requires count <= |rx|
      requires start <= limit <= buffer.Length
      modifies this`rx, buffer
      ensures rx == old(rx)[count..]
      ensures stored == Min(start + 4 * count, limit)
      ensures buffer[..stored] == old(buffer[..start]) + Unpack(old(rx)[..count])[..stored - start]
      ensures buffer[stored..] == old(buffer[..])[stored..]
    {
      ghost var all := Unpack(rx[..count]);
      stored := start;
      for i := 0 to count
        invariant rx == old(rx)[i..]
        invariant stored == Min(start + 4 * i, limit)
        invariant forall k :: start <= k < stored ==> buffer[k] == all[k - start]
        invariant forall k :: 0 <= k < buffer.Length && !(start <= k < stored) ==> buffer[k] == old(buffer[k])
      {
        var word := rx[0];
        rx := rx[1..];
        UnpackWord(old(rx)[..count], i);
        assert all[4 * i..4 * (i + 1)] == WordBytes(word);
        stored := StoreWord(word, buffer, stored, limit);
      }
    }
  }

  function Min(a: int, b: int): int {
    if a < b then a else b
  }

  function RxHead(lenWord: uint32, maxLen: nat): seq<byte> {
    if maxLen < 2 then [] else [ByteOf(lenWord, 2), ByteOf(lenWord, 3)]
  }

  /** How many bytes are stored: what the words hold, up to the frame and the room. */
  function RxStored(len: nat, maxLen: nat): nat {
    var extra := if len > 2 then len - 2 else 0;
    var head := if maxLen < 2 then 0 else 2;
    Min(head + 4 * (RxCount(len) - 1), Min(extra + 2, maxLen))
  }

  lemma RxBytesInOrder(ws: seq<uint32>, maxLen: nat)
    requires Ready(ws) && Accepted(RxLength(ws))
    ensures var len := RxLength(ws);
            var head := RxHead(ws[0], maxLen);
            RxBytes(ws, maxLen) == head + Unpack(ws[1..RxCount(len)])[..RxStored(len, maxLen) - |head|]
  {
    var n := RxCount(RxLength(ws));
    assert ws[..n][1..] == ws[1..n];
    assert Unpack(ws[..n]) == WordBytes(ws[0]) + Unpack(ws[1..n]);
  }

  /** The words of the bytes from `i` on. */
  ghost function Unsent(s: seq<byte>, i: nat): seq<uint32> {
    if i < |s| then Pack(s[i..]) else []
  }

  lemma NextWord(s: seq<byte>, i: nat)
    requires i < |s|
    ensures Unsent(s, i) == [PackWord(Take(s[i..], 4))] + Unsent(s, i + 4)
  {
    if i + 4 < |s| {
      assert s[i..][4..] == s[i + 4..];
    }
  }

  /** Successive receive calls, each with its own room in the buffer. */
  function Drain(ws: seq<uint32>, maxes: seq<nat>): seq<seq<byte>>
    requires DrainReady(ws, |maxes|)
    decreases |maxes|
  {
    if maxes == [] then []
    else [RxBytes(ws, maxes[0])] + Drain(RxRest(ws), maxes[1..])
  }

  predicate DrainReady(ws: seq<uint32>, n: nat) {
    n == 0 || (Ready(ws) && Accepted(RxLength(ws)) && DrainReady(RxRest(ws), n - 1))
  }

  function Flatten<T>(parts: seq<seq<T>>): seq<T> {
    if parts == [] then [] else parts[0] + Flatten(parts[1..])
  }

  lemma FewestWords(n: nat, len: nat)
    requires 4 * (n - 1) < 2 + len <= 4 * n
    ensures n == RxCount(len)
  {
  }

  /** What a call returns for a frame: the frame cut to the room, but for two cases. With
      room for one byte it drops two, and takes the third byte of the frame for the first;
      and a frame of one byte comes back with the byte that follows it. */
  function Received(ws: seq<uint32>, f: Frame, maxLen: nat): seq<byte>
    requires Carries(ws, f)
  {
    if maxLen == 1 then Take(f[if |f| < 2 then |f| else 2..], 1)
    else if |f| == 1 && maxLen >= 2 then [f[0], Unpack(ws)[3]]
    else Take(f, maxLen)
  }

  lemma ReceiveOne(ws: seq<uint32>, f: Frame, rest: seq<uint32>, maxLen: nat)
    requires Carries(ws, f)
    ensures Ready(ws + rest) && Accepted(RxLength(ws + rest))
    ensures RxRest(ws + rest) == rest
    ensures RxBytes(ws + rest, maxLen) == Received(ws, f, maxLen)
  {
    ReadyStream(ws, f, rest);
    StoredBytes(Unpack(ws), f, maxLen);
  }

  lemma ReadyStream(ws: seq<uint32>, f: Frame, rest: seq<uint32>)
    requires Carries(ws, f)
    ensures Ready(ws + rest) && Accepted(RxLength(ws + rest)) && RxLength(ws + rest) == |f|
    ensures RxCount(|f|) == |ws| && (ws + rest)[..|ws|] == ws && RxRest(ws + rest) == rest
  {
    FewestWords(|ws|, |f|);
    assert (ws + rest)[0] == ws[0];
    assert (ws + rest)[..|ws|] == ws && (ws + rest)[|ws|..] == rest;
  }

  lemma StoredBytes(all: seq<byte>, f: Frame, maxLen: nat)
    requires 0 < |f| && 4 <= |all| && 2 + |f| <= |all| < 6 + |f| && |all| % 4 == 0
    requires f == all[2..2 + |f|]
    ensures StoredOf(all, |f|, maxLen)
         == if maxLen == 1 then Take(f[if |f| < 2 then |f| else 2..], 1)
            else if |f| == 1 && maxLen >= 2 then [f[0], all[3]]
            else Take(f, maxLen)
  {
    if maxLen < 2 {
      ReadAfterHead(all, f, maxLen);
    } else if |f| == 1 {
      assert Take(all[2..], 2) == [f[0], all[3]];
    } else {
      ReadWhole(all, f, maxLen);
    }
  }

  lemma ReadWhole(all: seq<byte>, f: Frame, maxLen: nat)
    requires 2 + |f| <= |all| && f == all[2..2 + |f|]
    ensures Take(all[2..], if |f| < maxLen then |f| else maxLen) == Take(f, maxLen)
  {
    var k := if |f| < maxLen then |f| else maxLen;
    assert all[2..][..k] == all[2..2 + |f|][..k];
  }

  lemma ReadAfterHead(all: seq<byte>, f: Frame, maxLen: nat)
    requires 0 < |f| && maxLen < 2 && 4 <= |all| && 2 + |f| <= |all| < 6 + |f| && |all| % 4 == 0
    requires f == all[2..2 + |f|]
    ensures Take(all[4..], maxLen) == if maxLen == 0 then [] else Take(f[if |f| < 2 then |f| else 2..], 1)
  {
    if maxLen == 1 && |f| >= 3 {
      assert all[4] == f[2];
    }
  }

  /** The words of each of a number of frames. */
  ghost predicate CarriesAll(wss: seq<seq<uint32>>, fs: seq<Frame>) {
    |wss| == |fs| && forall i :: 0 <= i < |fs| ==> Carries(wss[i], fs[i])
  }

  lemma CarriesRest(wss: seq<seq<uint32>>, fs: seq<Frame>)
    requires CarriesAll(wss, fs) && fs != []
    ensures Carries(wss[0], fs[0]) && CarriesAll(wss[1..], fs[1..])
  {
  }

  lemma {:induction false} StreamReady(fs: seq<Frame>, wss: seq<seq<uint32>>)
    requires CarriesAll(wss, fs)
    ensures DrainReady(Flatten(wss), |fs|)
  {
    if fs != [] {
      CarriesRest(wss, fs);
      ReceiveOne(wss[0], fs[0], Flatten(wss[1..]), 0);
      StreamReady(fs[1..], wss[1..]);
    }
  }

  lemma FirstOfStream(fs: seq<Frame>, wss: seq<seq<uint32>>, maxes: seq<nat>)
    requires CarriesAll(wss, fs) && |fs| == |maxes| > 0
    ensures Carries(wss[0], fs[0]) && CarriesAll(wss[1..], fs[1..])
    ensures DrainReady(Flatten(wss), |maxes|) && DrainReady(Flatten(wss[1..]), |maxes[1..]|)
    ensures Drain(Flatten(wss), maxes)
         == [Received(wss[0], fs[0], maxes[0])] + Drain(Flatten(wss[1..]), maxes[1..])
  {
    CarriesRest(wss, fs);
    StreamReady(fs, wss);
    ReceiveOne(wss[0], fs[0], Flatten(wss[1..]), maxes[0]);
  }

  ghost function ReceivedAll(wss: seq<seq<uint32>>, fs: seq<Frame>, maxes: seq<nat>): (got: seq<seq<byte>>)
    requires CarriesAll(wss, fs) && |fs| == |maxes|
    ensures |got| == |fs| && forall i :: 0 <= i < |fs| ==> got[i] == Received(wss[i], fs[i], maxes[i])
  {
    seq(|fs|, i requires 0 <= i < |fs| => Received(wss[i], fs[i], maxes[i]))
  }

  lemma ReceivedSplit(wss: seq<seq<uint32>>, fs: seq<Frame>, maxes: seq<nat>)
    requires CarriesAll(wss, fs) && |fs| == |maxes| > 0 && CarriesAll(wss[1..], fs[1..])
    ensures ReceivedAll(wss, fs, maxes)
         == [Received(wss[0], fs[0], maxes[0])] + ReceivedAll(wss[1..], fs[1..], maxes[1..])
  {
    var all, rest := ReceivedAll(wss, fs, maxes), ReceivedAll(wss[1..], fs[1..], maxes[1..]);
    forall i | 1 <= i < |fs| ensures all[i] == rest[i - 1] {
      assert wss[1..][i - 1] == wss[i] && fs[1..][i - 1] == fs[i] && maxes[1..][i - 1] == maxes[i];
    }
  }

  /** Back-to-back frames, each in the fewest words that hold it: every call returns its
      own frame, cut to its room but for the two cases of `Received`, and no room, however
      small, shifts the frames after it. */
  lemma {:induction false} ReceiveStream(fs: seq<Frame>, wss: seq<seq<uint32>>, maxes: seq<nat>)
    requires CarriesAll(wss, fs) && |fs| == |maxes|
    ensures DrainReady(Flatten(wss), |maxes|)
    ensures Drain(Flatten(wss), maxes) == ReceivedAll(wss, fs, maxes)
    decreases |fs|
  {
    if fs != [] {
      FirstOfStream(fs, wss, maxes);
      ReceiveStream(fs[1..], wss[1..], maxes[1..]);
      ReceivedSplit(wss, fs, maxes);
    }
  }

  /** A call returns its frame cut to the room exactly with no room, or with room for two
      and a frame of two, or where the first and third byte happen to agree. */
  lemma CutIff(ws: seq<uint32>, f: Frame, maxLen: nat)
    requires Carries(ws, f)
    ensures Received(ws, f, maxLen) == Take(f, maxLen)
       <==> || maxLen == 0
            || (maxLen == 1 && |f| >= 3 && f[2] == f[0])
            || (maxLen >= 2 && |f| >= 2)
  {
    if maxLen == 1 && |f| >= 3 {
      assert Received(ws, f, 1) == [f[2]] && Take(f, 1) == [f[0]];
    }
  }
}
