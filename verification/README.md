# ZanOS in Dafny

A model of the hand-written kernel code of ZanOS, a small operating system for an ARM
Cortex-M board with an Ethernet controller, and proofs about it.
`dafny verify dfyconfig.toml` checks the whole project.

What is modelled, one group of modules for each part of the kernel:

- `Checksum`, `Net`, `NetProperties`, `Network`: the ARP and ping responder and the
  Internet checksum. The code is compared with RFC 791, RFC 792, RFC 826, RFC 1071 and
  RFC 1624, and run on any number of hosts at once.
- `Departures`: for each way the code departs from what one would expect, an input.
- `Ethernet`, `Pbuf`, `LwipPort`, `ReceivePoll`: frames packed into and out of the
  controller's 32-bit data register, packet buffer chains flattened into frames, and the
  interrupt flag that wakes the program for a received frame.
- `HttpReader`, `HttpRequest`, `HttpClient`, `HttpRuns`, `HttpHistory`, `Shell`: the HTTP
  client, a machine driven by DNS and TCP callbacks, over every order of events lwIP
  allows; its request, against a reader that follows RFC 7230; and the `curl` command that
  starts it.
- `RamDisk`, `RamDiskRuns`: the file table as a map, and over every sequence of calls.
- `CriticalSection`: save-and-restore critical sections interleaved, instruction by
  instruction, with an interrupt handler.
- `CLib`, `Numbers`, `LineEditor`: the C library routines the rest relies on, number
  printing and parsing, and the line editor with a terminal that interprets its echo.

## Conventions

- Unsigned machine integers are ranged integers (`Machine`); masks and shifts of them are
  written as `%` and `/`, and 32-bit addition wraps where the code's does (`Add32`,
  `ToInt32`). The processor is little-endian.
- A C string a routine only reads is a sequence holding a NUL, or a text with the
  terminator left implicit; memory it writes is an array. The fixed-size fields of a RAM
  disk slot are sequences in a record, and the table is an array of such records.
- Memory-mapped registers are streams: the words written to and still to be read from the
  Ethernet data register, and the characters typed and printed. The count of waiting
  packets is a parameter. A frame goes out as `Ethernet.OnWire` has it: `eth_init` turns on
  transmit padding (src/eth.c:22), and short frames are filled up with zeros to 60 bytes.
- The controller holds a received frame as `Ethernet.Carries` has it: a 16-bit length and
  the bytes, lowest byte of each word first, in the fewest words.
- lwIP is an environment. What its header comments promise is the predicate
  `HttpClient.Enabled`, and the results it returns are part of each event. A pbuf chain is
  well-formed when it meets the invariant of include/lwip/pbuf.h.
- A precondition says what memory or which environment promise the C code relies on:
  `Net.Readable` is the exact extent of the packet buffer the handler reads and writes, and
  `Ethernet.Ready` says that the controller holds the whole of a packet it announces.

## Where the code departs from what one would expect

Each of these is a theorem that says exactly when the code does what is expected; the
module `Departures`, or the lemma named last, has an input for each.

- The checksum equals that of RFC 1071 if and only if the word sum fits 32 bits
  (`Checksum.CodeMeetsRfc1071`, `Checksum.CodeByteOrder`); 131074 bytes is the longest
  length for which it always does (`Checksum.AccumulatorBound`; `Departures.LostCarry`).
- The answer to an echo request is an invalid packet when the request announces less than
  four bytes of ICMP, with one exception, or when the frame received is shorter than its IP
  header announces, unless the padding makes good for the bytes that are missing
  (`NetProperties.AnswerValidIff`; `Departures.NothingAnnounced`, `Departures.CutShort`,
  `Departures.CutMadeGood`).
- A recomputed checksum differs from the received one, or from the incremental update of
  RFC 1624, only between the two zeros of one's-complement arithmetic
  (`NetProperties.IpChecksumKept`, `NetProperties.IcmpChecksumIsIncremental`;
  `Departures.OtherZero`, `Departures.ZeroEcho`).
- ARP requests are answered whatever their hardware type and protocol, with address
  lengths 6 and 4 written by the code and the requester taken from the Ethernet header, so
  RFC 826 is followed exactly on requests for Ethernet and IPv4 with those lengths that come
  from their ARP sender (`NetProperties.ArpAnswerMeetsRfc826`; `Departures.ArpDepartures`).
- Hosts that share an address each answer, so more frames than injected are sent exactly
  when two hosts share one (`Network.OneForOneIffDistinct`; `Network.BoundReached`). This is
  for frames that hold the fields the handler tests, or are never answered. A shorter frame
  is judged by the stale bytes after it, so every host may answer it
  (`Network.BoundIffHosts`; `Network.RuntRun`). It sets off no storm, because the padding
  gives each short answer the type of a reply; unpadded, an echo reply below 35 bytes could
  be answered in turn (`Network.AnswerOnWireIsQuiet`, `Network.UnpaddedQuietIff`).
- `eth_receive` drops the first two bytes when it has room for one byte only, and returns
  two bytes for a frame of one (`Ethernet.CutIff`; `Departures.RoomForOne`,
  `Departures.FrameOfOne`). The comment at src/eth.c:82-85 counts the length field inside
  the packet length; the code does not, and the model follows the code.
- `lwip_poll` takes one frame for each wake-up it sees, so a frame that arrives before the
  last one is acknowledged, or an interrupt that finds the flag set, leaves a frame waiting
  for ever after (`ReceivePoll.AllHandedIff`, `ReceivePoll.NeverCatchesUp`;
  `ReceivePoll.StrandedFrame`).
- `memcpy` agrees with `memmove` on overlapping ranges only when the source repeats
  (`CLib.MemcpyAgreesWithMemmove`; `Departures.SmearedCopy`).
- An update outside a critical section can be lost, and only such an update
  (`CriticalSection.ProtectedIffNeverLoses`; `CriticalSection.LosingSchedule`).
- Creating a file that exists takes a slot and changes nothing else; later lookups go on
  finding the first one (`RamDisk.Table.Create`; `RamDiskRuns.SecondCreate`).

## Model

| member | source | states |
|---|---|---|
| Checksum.Fold | src/net.c:25-28 | The fold loop yields the representative modulo 65535 that is 0 only for 0, within two rounds |
| Checksum.AddWords | src/net.c:17-24 | The summing loop computes the little-endian word sum modulo 2^32, with an odd last byte as a low byte |
| Checksum.Compute | src/net.c:16-29 | `checksum` over any part of a buffer computes the code's checksum of those bytes, for every length |
| Checksum.CodeMeetsRfc1071 | src/net.c:16-29 | The deferred-carry checksum equals the complement of step-by-step one's-complement addition if and only if the word sum is below 2^32 |
| Checksum.AccumulatorBound | src/net.c:18-24 | A length is safe for every buffer if and only if it is at most 131074 bytes |
| Checksum.CodeByteOrder | src/net.c:11-29 | Section 2 (B) of RFC 1071 for the code: `ntons` of its checksum is the checksum over big-endian words, odd lengths included, if and only if the word sum is below 2^32 |
| Checksum.CodeChecksFilledField | src/net.c:81-88 | At every length, the code checks a message with its own checksum stored in the zeroed field to 0 |
| Checksum.StoredChecksumVerifies | src/net.c:81-88 | Up to 131074 bytes such a message also verifies by RFC 1071, in network order |
| Net.Responder.HandlePacket | src/net.c:31-98 | The packet afterwards is the echo reply of the packet before or unchanged, and exactly the answer, if any, goes to the controller |
| Net.Responder.BuildArpReply | src/net.c:43-63 | The 42 bytes of the ARP reply, field by field |
| Net.Responder.RewriteEcho | src/net.c:78-92 | The in-place rewrite yields the echo reply of the original bytes |
| Net.Responder.PrepareIp | src/net.c:78-82 | New addresses and header checksum in bytes 24 to 33, everything else kept |
| Net.Responder.StoreChecksum | src/net.c:81-88 | The field holds the checksum of the message with that field zeroed, everything else kept |
| Net.Responder.SetAddresses | src/net.c:79-80 | The source address becomes the destination and the host's own the source |
| Net.Responder.PrepareIcmp | src/net.c:84-88 | Type 0 and the checksum over the announced length, everything else kept |
| Net.Responder.SwapEthernet | src/net.c:90-92 | The source address becomes the destination and the host's own the source |
| NetProperties.EchoAnswerIsCorrect | src/net.c:69-95 | Every complete echo request, told by its header bytes, is answered by a frame whose two checksums verify in network order over the total length of RFC 791 as it goes out, are those of RFC 1071 over their zeroed fields, sent back to the Ethernet source, with the IP addresses exchanged and every other byte kept |
| NetProperties.AnsweredIff | src/net.c:31-76 | On bytes: exactly ARP requests for the host's address and IPv4 packets to it with protocol 1 and ICMP type 8 are answered |
| NetProperties.ArpAnswer | src/net.c:40-65 | Every ARP request for the host, whatever types it gives, is answered by the 42 bytes of the reply, field by field |
| NetProperties.EnoughMemory | src/net.c:31-98 | A buffer with the headers and all that is announced is all the memory the handler needs |
| NetProperties.AnswerValidIff | src/net.c:78-94 | For every echo request answered, the padded frame holds all it announces and both its checksums verify if and only if the received length covers the announced one, and that covers the ICMP checksum field or is 23 with code 255; or the padding reaches the announced length and the stale bytes summed but not sent add up to a multiple of 65535, with the cases of a lost half field and of an all-zero rest told apart |
| NetProperties.CutAfterField | src/net.c:85-94 | When only data is cut off, what is left verifies after padding if and only if the stale words are a multiple of 65535 and something else is left, or are 0 |
| NetProperties.ZerosAreMadeGood | src/net.c:85-94 | So every request of at most 60 bytes cut short in its data, with zeros after it in the buffer, gets a valid answer |
| NetProperties.IpChecksumKept | src/net.c:79-82 | A valid header checksum comes back unchanged, except that 0xFFFF becomes 0 |
| NetProperties.IcmpChecksumIsIncremental | src/net.c:85-88 | For a valid request the stored checksum is equation 3 of RFC 1624 for type 8 to 0, except exactly when code and data are all zero |
| NetProperties.ArpAnswerMeetsRfc826 | src/net.c:37-66 | On every ARP packet the code does what RFC 826 prescribes, with or without its optional length checks, if and only if it does not answer or the request is for Ethernet and IPv4, has lengths 6 and 4, and comes from its ARP sender |
| Network.AnswerOnWireIsQuiet | src/eth.c:20-22 | No answer, padded as it goes out, is ever answered by any host, whatever its addresses and whatever follows the frame in its buffer |
| Network.UnpaddedQuietIff | src/net.c:31-98 | As handed to the controller, an answer is never answered if and only if it is an ARP reply or has at least 35 bytes |
| Network.NoReplyStorm | src/net.c:31-98 | In every run of any hosts on a shared medium, with frames of any length, frames sent are at most frames injected times hosts |
| Network.BoundIffHosts | src/net.c:31-98 | A number bounds the frames sent for each frame injected, in every run with frames of any length, if and only if it is at least the number of hosts |
| Network.RuntRun | src/net.c:31-35 | One frame that ends with its Ethernet header, completed by stale bytes, is answered by every host |
| Network.WholeIsBounded | src/net.c:31-98 | With frames that hold the tested fields or are never answered, frames sent are at most frames injected times the most hosts that share one address, in every run |
| Network.BoundIffSharing | src/net.c:31-98 | A number bounds the frames sent for each such frame injected, in every run, if and only if no more hosts than that share one address |
| Network.BoundReached | src/net.c:37-66 | For every address and number of frames there is a run in which each frame injected is answered by all hosts that share the address |
| Network.OneForOneIffDistinct | src/net.c:31-98 | Frames sent are at most such frames injected, in every run, if and only if no two hosts have the same address |
| Ethernet.Controller.Send | src/eth.c:30-44 | The words written are the length and the bytes packed four to a word |
| Ethernet.LoadWord | src/eth.c:39-42 | A word of the send loop packs up to four bytes, lowest first |
| Ethernet.SentWord | src/eth.c:34-44 | Every word sent, as a sum of four bytes of the frame, lowest first, zeros after the last |
| Ethernet.TransmitRoundTrip | src/eth.c:34-44 | Any frames below 65536 bytes sent one after another decode to the same frames in order |
| Ethernet.TransmitsExactlyShortFrames | src/eth.c:35 | A frame is transmitted whole if and only if its length fits 16 bits |
| Ethernet.Controller.Receive | src/eth.c:56-101 | No packet, a bad length with its reset, or one frame: bytes stored, words consumed, and the rest of the buffer kept |
| Ethernet.Controller.StoreFrame | src/eth.c:71-100 | The bytes stored for an accepted length, in order, up to the frame and the room |
| Ethernet.Controller.ReadWords | src/eth.c:90-98 | The outer loop consumes its words and stores their bytes up to the limit |
| Ethernet.StoreWord | src/eth.c:93-97 | The inner loop stores the bytes of one word up to the limit |
| Ethernet.ReceiveStream | src/eth.c:56-101 | For any back-to-back frames, each in the fewest words that hold its length and bytes, and any rooms, each call returns its own frame cut to its room but for two cases, and no room shifts later frames |
| Ethernet.CutIff | src/eth.c:71-100 | A call returns its frame cut to the room if and only if the room is 0, or both room and frame have two bytes, or room is 1 and the first and third byte agree |
| Pbuf.TotLenIsLength | include/lwip/pbuf.h:193-199 | The total length of a well-formed chain is the number of its bytes |
| LwipPort.LowLevelOutput | src/lwip_port.c:20-33 | The frame sent is the leading buffers up to the first that does not fit 1518 bytes |
| LwipPort.CopyChain | src/lwip_port.c:25-29 | The copy loop leaves those bytes at the start of the buffer |
| LwipPort.TransmitPath | src/lwip_port.c:20-33 | The words sent decode to the first n buffers, where n buffers fit 1518 bytes and no more do |
| LwipPort.WholePacketIffItFits | src/lwip_port.c:25-31 | The whole packet is sent if and only if its total length is at most 1518 |
| HttpRequest.FitsIff | src/http_client.c:9 | The request and its NUL fit 256 bytes if and only if path and host have at most 211 characters |
| HttpRequest.Append | src/http_client.c:131-134 | `strcpy` at `strlen` appends to the text in the buffer |
| HttpRequest.Build | src/http_client.c:130-134 | The five copies leave the request text, NUL-terminated |
| HttpRequest.RequestReadsBack | src/http_client.c:130-134 | A reader by RFC 7230 finds method GET, the path, HTTP/1.1, the host without blanks around it in the Host field, "Connection: close" and the end of the message, if and only if the path is a request target and the host has no control characters |
| HttpRequest.RequestRoundTrip | src/http_client.c:130-134 | It finds the very host if and only if, besides, the host has no blank at either end |
| HttpClient.Client.CloseConnection | src/http_client.c:11-21 | Callbacks removed, pcb closed, client idle |
| HttpClient.Client.OpenConnection | src/http_client.c:99-116 | No pcb, a refused connection closed again, or a connection under way with its error callback set |
| HttpClient.Client.HttpGet | src/http_client.c:119-151 | A busy client is untouched; an idle one builds the request and starts the lookup; the invariant is kept |
| HttpClient.Client.DnsCallback | src/http_client.c:86-117 | The whole new state after a lookup with or without an address; the invariant is kept |
| HttpClient.Client.ConnectedCallback | src/http_client.c:60-84 | The request text is written and the receive callback set, or the connection is closed; the invariant is kept |
| HttpClient.Client.RecvCallback | src/http_client.c:23-49 | The bytes of the chain printed, their number acknowledged and the buffer freed; only freed on error |
| HttpClient.Client.PrintChain | src/http_client.c:37-42 | The loops print the bytes of the chain in order |
| HttpClient.Client.RemoteClosedCallback | src/http_client.c:25-29 | The connection is closed; the invariant is kept |
| HttpClient.Client.ErrCallback | src/http_client.c:51-58 | The client is idle and the pcb, freed by lwIP, is not touched; the invariant is kept |
| HttpClient.NextKeepsInv | src/http_client.c:11-151 | Every call and callback keeps the ownership invariant |
| HttpRuns.PcbOwnership | src/http_client.c:11-151 | In every run the live pcbs are the client's own or none, an idle client has none, and each pcb issued is released exactly once |
| HttpRuns.RankStep | src/http_client.c:23-117 | Every callback other than data strictly lowers the rank resolving, connecting, receiving, idle |
| HttpRuns.WaitEnds | src/main.c:172-175 | The wait of `curl` takes at most three callbacks other than data, and the client is idle after the last |
| HttpRuns.BusyIffCallbackPending | src/http_client.c:153-155 | The client is busy if and only if some ending callback can still come; an idle client gets none |
| HttpRuns.StreamIsPrinted | src/http_client.c:36-46 | Over every run the bytes printed are those received in order, as many are acknowledged, and each buffer is freed once |
| HttpHistory.PhaseIsTold | src/http_client.c:11-151 | In every run the globals, the live pcbs and the callbacks registered are those of the phase the events lead to: idle, resolving, connecting or receiving |
| HttpHistory.CallbackIff | src/http_client.c:11-151 | In every run exactly the callbacks of that phase can come next |
| HttpHistory.StaysOpen | src/http_client.c:99-116 | A connection attempt lwIP started, with a cached or a resolved address, leaves the client busy with its pcb open and waiting |
| HttpHistory.StaysConnected | src/http_client.c:68-77 | Once the request is written the client is busy with its pcb open, and data and the server's close can come |
| HttpHistory.PcbsAreTold | src/http_client.c:11-116 | In every run the pcbs closed are those of refused attempts, failed connects, failed writes and remote closes, each once, and those issued and lost are the events' |
| HttpHistory.ClosedIsUnregistered | src/http_client.c:11-17 | In every run no callback is left on a pcb the client has closed |
| HttpHistory.RequestsAreSent | src/http_client.c:119-134 | What is written over every run is one request for each connection made: that of the call that led to it, whatever calls came while the client was busy |
| HttpHistory.AnyResponse | src/http_client.c:23-151 | For every request and every response, in any buffers, there is a run that sends the one, prints exactly the other and ends idle |
| Shell.CurlHost | src/main.c:170-171 | A line is a `curl` command if and only if its first five characters are `curl` and a space, and the host is the rest |
| Shell.CurlFits | src/main.c:170-172 | Every `curl` line `getline` accepts meets the demands of `http_get` |
| Shell.CurlAsks | src/main.c:170-172 | Typing `curl` and up to 58 printable characters leads to the literal request for "/" from that host |
| Shell.CurlReadsBack | src/main.c:170-172 | What a `curl` line sends is by RFC 7230 a GET of "/" from its host if and only if the edited host has no control character |
| Shell.TypedTextReadsBack | src/main.c:52-172 | It does so whenever no control character but tab and backspace was typed |
| Shell.RunCurl | src/main.c:150-172 | From typed characters to client: a `curl` line starts the request for its host, any other line leaves the client alone |
| RamDisk.Table.Init | src/ramdisk.c:9-12 | No file is found any more |
| RamDisk.Table.Create | src/ramdisk.c:14-26 | Fails if and only if all 16 slots are taken; otherwise adds the name cut to 31 characters, unless an earlier file has it |
| RamDisk.NewFile | src/ramdisk.c:17-20 | The slot's name is the first 31 characters, its content empty, its data untouched |
| RamDisk.Table.Find | src/ramdisk.c:29-30 | The lookup loop finds the earliest slot with the name, if and only if there is one |
| RamDisk.Table.Write | src/ramdisk.c:28-40 | The content of the name becomes the first 255 characters of the data, no other name changes, and a miss fails |
| RamDisk.Table.Read | src/ramdisk.c:42-52 | The content of the name and a NUL in the buffer, or failure with the buffer untouched |
| RamDisk.CopyOut | src/ramdisk.c:45-47 | The copy loop writes the content and a NUL and nothing else |
| RamDisk.LookupHits | src/ramdisk.c:43-44 | First-match lookup is the map in which the earlier of two equal names wins |
| RamDisk.WriteFirst | src/ramdisk.c:29-36 | Overwriting the first match updates the map at that name only |
| RamDiskRuns.Replay | src/ramdisk.c:9-52 | Any sequence of calls on any table, whatever its slots hold, leaves the disk and returns the codes and texts that the abstract disk does |
| RamDiskRuns.CountIsCreates | src/ramdisk.c:14-26 | Over every sequence of calls the files in use are the creates since init, up to 16 |
| RamDiskRuns.HitIffMade | src/ramdisk.c:14-30 | A lookup hits if and only if the name is the first 31 characters of a create that found room since init |
| RamDiskRuns.CodeOfCall | src/ramdisk.c:14-52 | The return code of each call of a sequence, told by the calls before it |
| RamDiskRuns.TextOfRead | src/ramdisk.c:28-52 | The text of each read: the last write to the name since it was made, cut to 255 characters, or nothing |
| RamDiskRuns.ReadReturnsLastWrite | src/ramdisk.c:28-52 | A read returns the last write to the name since it was made, cut to 255 characters |
| RamDiskRuns.UnwrittenReadsEmpty | src/ramdisk.c:20-52 | A file made and not written reads as empty, whatever its slot held |
| RamDiskRuns.InitForgets | src/ramdisk.c:9-12 | On any table, calls after an init lead where the same calls lead from an empty disk |
| RamDiskRuns.SecondCreate | src/ramdisk.c:14-26 | A file created a second time takes a second slot, and reads go on finding what was written to the first |
| CriticalSection.NoUpdateLost | src/lwip_port.c:69-78 | In every interleaving, at any depth, protected code adds the sum of its updates and one tick per interrupt, modulo 2^32, and restores the mask and the saved masks |
| CriticalSection.ProtectedIffNeverLoses | include/lwip/sys.h:525-568 | No interleaving loses an update if and only if every update of the program runs with interrupts masked |
| CriticalSection.IncOutcome | include/lwip/sys.h:525-532 | After SYS_ARCH_INC, in every interleaving and whatever the mask before it, the variable is the old value plus the argument and the ticks, modulo 2^32 |
| CriticalSection.DecOutcome | include/lwip/sys.h:534-541 | After SYS_ARCH_DEC it is the old value less the argument plus the ticks, modulo 2^32 |
| CriticalSection.IncThenDec | include/lwip/sys.h:525-541 | Alone, a decrement takes back an increment, in twelve instructions |
| CriticalSection.OutcomeKept | src/interrupt.c:25-28 | At every point of every interleaving the outcome still to come is the program's total and the ticks so far |
| CriticalSection.SoloCode | src/lwip_port.c:69-78 | With no interrupt, any nesting of sections adds its total and each unprotect restores the mask of its own protect |
| CriticalSection.TicksValue | src/lwip_port.c:61-63 | The ticks add up to their ordinary sum modulo 2^32 |
| ReceivePoll.NextKeepsInv | src/interrupt.c:8-17 | Every step of the handler, the poll and the controller keeps the account of wake-ups |
| ReceivePoll.Backlog | src/main.c:43-49 | In every interleaving frames are handed to lwIP in order, and those left behind are exactly the wake-ups on their way and the wake-ups lost |
| ReceivePoll.AllHandedIff | src/main.c:43-49 | Every frame received has been handed over if and only if no wake-up is on its way and none was ever lost |
| ReceivePoll.NeverCatchesUp | src/main.c:43-49 | Once a wake-up is lost, some frame is waiting in every continuation |
| ReceivePoll.OnlyArrivalsHelp | src/main.c:43-49 | With no wake-up on its way nothing but another arrival changes anything |
| ReceivePoll.StrandedFrame | src/interrupt.c:8-17 | Two frames that arrive before the handler runs leave one waiting |
| CLib.Strlen | src/strings.c:12-16 | The length of the text before the first NUL |
| CLib.Strcmp | src/strings.c:3-6 | The difference of the characters where two strings first differ or end |
| CLib.Strncmp | src/strings.c:26-32 | The same over the first n characters |
| CLib.CompareZero | src/strings.c:3-6 | That difference is zero if and only if the texts are equal |
| CLib.Strcpy | src/strings.c:8-10 | The text and its NUL at the place, the rest of the buffer kept |
| CLib.Strncpy | src/strings.c:18-24 | The first n characters padded with NULs, the rest kept |
| CLib.Memcpy | src/strings.c:43-48 | The upward copy: each cell takes its source as it is at that moment, and nothing outside changes |
| CLib.MemcpyFrom | src/strings.c:43-48 | A copy from outside the buffer |
| CLib.Memmove | src/strings.c:50-61 | The destination is the old source for every overlap, and nothing else changes |
| CLib.MemcpyAgreesWithMemmove | src/strings.c:43-61 | `memcpy` does what `memmove` does if and only if the destination does not start inside the source or the source repeats with their distance |
| Numbers.PrintInt | src/uart.c:32-53 | The decimal digits of the number, nothing for a negative one, with at most 10 of the 16 buffer bytes |
| Numbers.StoreDigits | src/uart.c:41-49 | The outer loop stores the digits lowest first |
| Numbers.DivideByTen | src/uart.c:42-46 | The subtraction loop divides by ten |
| Numbers.Atoi | src/strings.c:34-41 | The value of the leading digits in 32-bit arithmetic |
| Numbers.PrintedNotation | src/uart.c:32-53 | The digits printed have no leading zero and mean the number in positional notation |
| Numbers.ParsedNotation | src/strings.c:34-41 | The result agrees modulo 2^32 with what the leading digits mean in positional notation |
| Numbers.ParseOfPrint | src/strings.c:34-41 | Parsing what was printed gives the number back, for every number from 0 to 2^31 - 1 |
| Numbers.PrintOfParse | src/uart.c:32-53 | Printing what was parsed gives the text back if and only if it is the decimal notation of a number below 2^31 |
| LineEditor.GetLine | src/main.c:52-84 | Up to the first Enter, the buffer holds the edited text and a NUL, and the echo is that of the edit |
| LineEditor.KeyPress | src/main.c:68-81 | One key edits the text and echoes accordingly |
| LineEditor.EditBound | src/main.c:77-81 | The text never exceeds max - 1 characters |
| LineEditor.EditKeepsCharacters | src/main.c:68-81 | The text has only characters that were typed, and no backspace |
| LineEditor.EditIsTyping | src/main.c:77-81 | Without the codes 8 and 127 the text and the echo are what was typed, as far as it fits |
| LineEditor.BackspaceErases | src/main.c:68-74 | Codes 8 and 127 take away the last character, if there is one |
| LineEditor.BackspaceUndoes | src/main.c:68-81 | Where there is room they take back the character typed before |
| LineEditor.FirstEnter | src/main.c:61-65 | The line ends at the first carriage return or line feed |
| LineEditor.ScreenAgrees | src/main.c:68-81 | After every prefix of printable characters and backspaces the terminal shows the prompt and exactly the edited text |
| Departures.LostCarry | src/net.c:19-24 | A buffer of 131075 bytes whose checksum is not that of RFC 1071 |
| Departures.ArpDepartures | src/net.c:40-59 | A request of each kind that is answered otherwise than RFC 826 says: hardware type, protocol, lengths, Ethernet source |
| Departures.NothingAnnounced | src/net.c:85-94 | A request that announces no ICMP bytes is answered by an invalid packet |
| Departures.CutShort | src/net.c:87-94 | So is a request cut short where a byte that is not zero followed it |
| Departures.CutMadeGood | src/eth.c:20-22 | The same request where only zeros followed is answered by a frame that padding makes valid |
| Departures.OtherZero | src/net.c:81-82 | A valid request with header checksum 0xFFFF, whose reply has 0 |
| Departures.ZeroEcho | src/net.c:85-88 | A valid all-zero request, where the code stores 0xFFFF and equation 3 of RFC 1624 gives 0 |
| Departures.RoomForOne | src/eth.c:75-97 | A frame of three bytes that comes back as its third byte |
| Departures.FrameOfOne | src/eth.c:75-87 | A frame of one byte that comes back as two |
| Departures.SmearedCopy | src/strings.c:43-48 | An overlapping `memcpy` that is not a `memmove` |

## Left out

- Register setup, polling loops and inline assembly (`eth_init`, `rtc_init`, UART waits, SysTick setup, fault handler): only the word streams, the interrupt mask and the printed characters are modelled.
- The status lines the network code and the HTTP client print: they carry no state.
- lwIP itself: DHCP, DNS, TCP and the rest are an environment with the promises of their header comments; `tcp_close` is taken to succeed.
- IP options: the code takes the IP header as 20 bytes whatever its length field says, and the checksum theorems are about those 20 bytes.
- `ethernetif_input`: allocating a pbuf and handing it to lwIP.
- The other shell commands, `ramdisk_ls`, `diag_print`, `uart_printf`: user interface.
- `src/heap.c`, `src/rtc.c`, `src/delay.c`, `src/kernel_log.c`: straight-line arithmetic and counters.
- SYS_ARCH_GET and SYS_ARCH_SET: the same sections around a read or a write.
- Update in place inside one RAM disk slot: `strncpy` and the data loop work on the slot's field as a value that is stored back; aliasing of arguments with the table is not modelled.
- Signed overflow in `atoi`, undefined in C, is modelled as the wrap-around of the processor.
- Echo requests that announce fewer than 20 bytes: the code then reads some four gigabytes past the packet, so no buffer meets `Net.Readable`, and in the multi-host runs such a frame may be injected but is never handled.
- `ReceivePoll` takes frames of accepted lengths and a controller whose memory does not overflow; the reset on a bad length is in `Ethernet.Controller.Receive`.
