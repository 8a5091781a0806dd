# Verified models of emmcdl

Dafny models of the parts of emmcdl, a flashing tool for Qualcomm devices, that hold real algorithms,
with proofs of what they are for. `dafny verify dfyconfig.toml` checks the whole project.

- **BipBuffer, SocketPair** (`src/sysdeps_win32.cpp`): the two-region circular buffer behind a
  socketpair, first as a class on an array that refines a bounded queue exactly, then as a protocol of
  one reader, one writer and any number of closers that take small steps in any order.
- **EventHooks, FdEvent, FdLooper** (`src/sysdeps_win32.cpp`): the fdevent looper. `FdEvent` says what
  each call does to the table of descriptors and the queue of pending ones; `FdLooper` does it on the
  heap, where the pending list is an intrusive ring of the fdevents, and keeps the hooks in step.
- **WaitForAll** (`src/sysdeps_win32.cpp`): waiting for more handles than one wait can take.
- **IntrusiveList, CopyProtocol, FastCopy** (`inc/list.h`, `src/firehose.cpp`): reading a partition
  into a file. `CopyProtocol` is the protocol of the two threads, `FastCopy` the threads on the heap
  with the ring of buffers between two cursor nodes, and every schedule of one is a run of the other.
- **FirehoseRead, ConfigureText, Configure** (`src/firehose.cpp`): the byte stream cut into XML and raw
  answers through a carry-over buffer, what a configure packet says, and the negotiation of the packet
  size on top of both. The history of what was written and read is ghost state that the port itself
  bears out.
- **Crc16, Crc32, Hdlc** (`src/crc.cpp`, `src/partition.cpp`, `src/serialport.cpp`, `src/usbport.cpp`):
  checksums and framing as in RFC 1662. The codec and the receiving loop are the same text in both
  ports.
- **HexRecords, FlashProg, HexBatches, FlashLoader** (`src/dload.cpp`): downloading an Intel HEX file:
  its records, what the packets made of them write, the loop that gathers a batch, and the sending.
- **DiskSize** (`src/diskwriter_windows.cpp`), **Sparse** (`src/sparse.cpp`), **XmlValue, StartSector**
  (`src/xmlparser.cpp`, `src/partition.cpp`, `src/firehose.cpp`): a galloping search, sparse images, and
  the editing and evaluation of XML attributes.
- **Arith, CString**: division and powers of two, and searching strings.

Code that works step by step is modelled as methods with loops on arrays and classes, each proved
against a specification function; threads are modelled as interleaved steps, with the atomicity of
critical sections, waits, events and interlocked operations taken from the system.

## What the proofs found

Where the code does less than it is for, lemmas say exactly when it does, and most show an input.

- A decoder round that meets an escape consumes two bytes, but the loop counts rounds, so decoding a
  frame reads one byte too far for every escape in it. The result is the packet exactly if these bytes
  are flags (`Hdlc.DecodeExactIff`, `Hdlc.FlagPacketReadsPast`); it always starts with the packet
  (`Hdlc.DecodeFrame`).
- If the read command cannot be written, or memory runs out, FastCopy waits in pthread_join for a
  thread that waits for data: `CopyProtocol.StuckIff` says that this is the only way to come to a
  standstill, `CopyProtocol.UnsentCommandHangs` gives the run. A copy that comes to its end is complete
  exactly if nothing went wrong (`CopyProtocol.CopyCompletesIff`). It need not come to an end: while the
  port fails and errno is EAGAIN, be it left over from an earlier timeout, the filler asks again for
  ever (`CopyProtocol.PortAtEndSpins`); apart from that and from spurious wakeups every run is bounded
  (`CopyProtocol.RunsAreBounded`).
- A copy that came to its end holds what the device gave exactly if no read failed
  (`CopyProtocol.FileIsGivenIff`); each failed read is 0xee up to the end of its chunk
  (`CopyProtocol.FileIsWanted`), and the copy does not tell.
- FastCopy's chunk loop ends only if the packet size holds a sector (`CopyProtocol.ChunksProgressIff`).
- A call that slept in `bip_buffer_read` answers EPIPE after a close even if bytes arrived meanwhile
  (`SocketPair.ClosedSleeperReturns`, `SocketPair.EpipeLeavesBytes`); only a call that found bytes when it
  began always returns some (`SocketPair.EnteredCallsCopy`).
- A configure packet says what was configured (`ConfigureText.PacketSays`), but an attribute whose key
  the memory name holds is read as what stands behind the name (`ConfigureText.NameHidesIff`), and sizes
  from 2^31 on are printed as negative numbers (`ConfigureText.SizeMeans`).
- An XML read loses bytes exactly if there are more of them to look through than were asked for and no
  terminator ends among as many as were asked for (`FirehoseRead.DropsIff`, `FirehoseRead.FiveForFour`).
- `HexToByte` reads a small letter right as the first digit of a byte and wrong as the second
  (`HexRecords.HexByteIff`).
- The write commands of LoadFlashProg put bytes in the wrong place exactly if a batch holds records that
  do not lie one behind the other (`FlashLoader.DownloadIff`, `FlashLoader.GapIsLost`).
- LoadFlashProg looks for the acknowledgement in a buffer that SendSync leaves alone when the port fails.
  So success means that every command was acknowledged exactly if the buffer never starts with 0x02 when
  one is sent (`FlashLoader.HonestIff`), and it does so after records at offsets 0x0200 to 0x02FF
  (`FlashLoader.StaleIsAckIff`) and, for the GO command, in a file whose last line has no line end
  (`FlashLoader.SilentGo`, `FlashLoader.SilentGoSucceeds`).
- The loop that reads a HEX file ends exactly if an end, a segment or enough data for a batch is still
  ahead, or the last line, which is read again and again, is one of these (`HexBatches.ReadingEndsIff`).
- A raw chunk without blocks ends the programming of a sparse image (`Sparse.ProgrammedIff`), with
  whatever errno holds: 0 means the whole image exactly if no such chunk comes first or errno is not 0
  (`Sparse.ZeroMeansAllIff`, `Sparse.EmptyChunkLosesRest`).
- `GetRawDiskSize` gives the offset of the last readable sector, not the size; its first step is 1024
  sectors, where the comment beside it says 512 MB (`DiskSize.Disk.GetRawDiskSize`).
- Start sectors are evaluated wrong only where `atoll` cuts a number to 63 bits
  (`StartSector.PrintedFromEndIff`); a product with a signed factor is taken for a difference, which is
  right only for 0 and 0, or 0 or 1 at the other place (`StartSector.ProductWithSignIff`).

## Model

| member | source | states |
|---|---|---|
| BipBuffer.Bip.Init | src/sysdeps_win32.cpp:889-904 | a new buffer is open, writable, not readable, and holds nothing |
| BipBuffer.Bip.Close | src/sysdeps_win32.cpp:906-917 | a close raises the events of the sides that cannot go on and keeps the contents |
| BipBuffer.Bip.Write | src/sysdeps_win32.cpp:928-1015 | accepts exactly the bytes that fit and puts them behind the contents; waits or answers EPIPE exactly if the buffer is full; the flags and events say whether one can read and write; no assert fails |
| BipBuffer.Bip.Read | src/sysdeps_win32.cpp:1017-1108 | hands over exactly the oldest bytes, as many as there are up to the length asked for, across both regions; the rest stays in order; no assert fails |
| BipBuffer.FifoConserves | src/sysdeps_win32.cpp:964-1003 | over any sequence of operations, what was accepted is what was delivered followed by what is left |
| BipBuffer.Perform | src/sysdeps_win32.cpp:928-1108 | each operation on the circular buffer answers as the bounded queue does and leaves it in the corresponding state |
| BipBuffer.Replay | src/sysdeps_win32.cpp:928-1108 | any sequence of writes, reads and closes on the circular buffer answers as a queue of capacity 4096 |
| SocketPair.StepKeepsInv | src/sysdeps_win32.cpp:906-1108 | every small step of a reader, a writer or a closer keeps flags, events, lock and queue consistent |
| SocketPair.RunKeepsInv | src/sysdeps_win32.cpp:906-1108 | so does every run |
| SocketPair.DeliveredInOrder | src/sysdeps_win32.cpp:928-1108 | in every run what was read is a prefix of what was written, at most 4096 bytes behind |
| SocketPair.CopyIsFifo | src/sysdeps_win32.cpp:964-1003 | the copying step of a call does to the queue and answers what the bounded queue of the circular buffer does, the bytes written being the first of the source and the bytes read the oldest |
| SocketPair.MovedAsTold | src/sysdeps_win32.cpp:928-1108 | over every run, between calls, what was written is the first bytes of each write's source, as many as it was told, in order, and what was read is as many of these as the reads were told |
| SocketPair.AnswersAreHonest | src/sysdeps_win32.cpp:941-960 | a finished call moved bytes, or answers EPIPE after a close having found nothing to do when it began |
| SocketPair.WakerAdvances | src/sysdeps_win32.cpp:997-1008 | while a side sleeps although it could work, the other is on its way to its event and can step on |
| SocketPair.SleeperIsWoken | src/sysdeps_win32.cpp:1005-1008 | no lost wakeup: such a sleeper is woken by at most five steps of the other side |
| SocketPair.CloseReleases | src/sysdeps_win32.cpp:906-917 | once a close is past a side's event, that side is not left blocked on it |
| SocketPair.ClosedCallsStayAwake | src/sysdeps_win32.cpp:1036-1041 | after a close no call goes to sleep |
| SocketPair.ClosedSleeperReturns | src/sysdeps_win32.cpp:1043-1051 | after a close a woken sleeper answers EPIPE in two steps, whatever the buffer holds |
| SocketPair.EpipeLeavesBytes | src/sysdeps_win32.cpp:1043-1051 | from the start, a run that ends with a reader answering EPIPE while the byte written is still in the buffer |
| SocketPair.EnteredCallsCopy | src/sysdeps_win32.cpp:1027-1058 | a call entered with bytes buffered (or room) copies, closed or not |
| SocketPair.OnlyHonestWaits | src/sysdeps_win32.cpp:941-960 | when nothing can move, a call that hangs waits for its peer on an open, empty (or full) buffer, and the peer is idle |
| SocketPair.WaitsIff | src/sysdeps_win32.cpp:941-960 | when nobody else is under way, a call that waits can go on exactly if it has something to do or the pair is closed |
| IntrusiveList.ListAddHead | inc/list.h:66-72 | the item stands right behind the head in one well-formed ring |
| IntrusiveList.ListAddTail | inc/list.h:58-64 | the item stands right before the head in one well-formed ring |
| IntrusiveList.ListRemove | inc/list.h:74-78 | the other nodes are one well-formed ring in their order |
| IntrusiveList.MoveBehindNext | src/firehose.cpp:857-858 | removing a cursor and adding it behind its successor swaps the two in the ring |
| IntrusiveList.RotateRing | inc/list.h:58-78 | the same ring told from its next node |
| CopyProtocol.MaskRoundsDown | src/firehose.cpp:774-774 | the mask makes the packet size the largest multiple of a power-of-two sector size |
| CopyProtocol.ChunkFits | src/firehose.cpp:774-778 | every chunk is a positive multiple of the sector size, at most the packet size and at most what is left |
| CopyProtocol.ChunksProgressIff | src/firehose.cpp:774-778 | chunks take sectors off exactly if the packet size holds a sector |
| CopyProtocol.StepKeepsInv | src/firehose.cpp:625-656 | every step of either thread keeps buffers, counters and file consistent |
| CopyProtocol.RunKeepsInv | src/firehose.cpp:822-860 | so does every interleaving |
| CopyProtocol.FileIsPrefix | src/firehose.cpp:637-655 | in every interleaving the file is an in-order prefix of what was put into buffers, which is never more than was asked for |
| CopyProtocol.FinishedCopyIsComplete | src/firehose.cpp:623-656 | a writer that ends without an error has written everything, exactly the size asked for, and its count is exactly 0 |
| CopyProtocol.FileIsWanted | src/firehose.cpp:840-859 | in every interleaving the file is a prefix, and at the end all, of what the schedule says it should hold: the bytes of each read in order, and for a failed read 0xee up to the end of its chunk |
| CopyProtocol.FileIsGivenIff | src/firehose.cpp:840-855 | a file that is finished holds just what the device gave, in order, exactly if no read failed |
| CopyProtocol.AnythingCanBeCopied | src/firehose.cpp:754-890 | for every content of the disk there is a run that copies it, both threads coming to their end |
| CopyProtocol.StuckIff | src/firehose.cpp:625-630 | a run can go no further exactly if it is over, or the filler gave up early and the writer waits for the rest: no other deadlock and no lost wakeup |
| CopyProtocol.UnsentCommandHangs | src/firehose.cpp:754-885 | a read command that cannot be written leaves the copy hanging |
| CopyProtocol.StepLowersRank | src/firehose.cpp:775-864 | every step but a spurious wakeup or a retry lowers a natural number, and a retry does not raise it |
| CopyProtocol.RunsAreBounded | src/firehose.cpp:775-864 | so every run is bounded, up to its spurious wakeups and retries |
| CopyProtocol.RunsEnd | src/firehose.cpp:775-864 | from the start nine steps for each byte and four more, and two for each spurious wakeup and each retry |
| CopyProtocol.PortAtEndSpins | src/firehose.cpp:845-847 | while the port fails with EAGAIN the filler can retry any number of times and nothing changes |
| CopyProtocol.GaveUpIff | src/firehose.cpp:611-890 | a run has given a thread up exactly if the command was not sent, no buffer could be had or a write was short in it |
| CopyProtocol.CopyCompletesIff | src/firehose.cpp:754-890 | a run that can go no further, in which nothing of that kind happened, has both threads done, the count at 0 and the file as put and of the size asked for; one in which it did has not |
| FastCopy.Threads.Acquire | src/firehose.cpp:822-839 | the filler gets the free buffer behind wnode, or a new one linked in there |
| FastCopy.Threads.Publish | src/firehose.cpp:856-860 | the filled buffer goes to the end of the filled part of the ring and the writer is signalled |
| FastCopy.Threads.Test | src/firehose.cpp:625-634 | the writer takes the oldest filled buffer, or waits exactly if there is none |
| FastCopy.Threads.Write | src/firehose.cpp:637-650 | the file grows by what was written of that buffer, and a short write ends the thread |
| FastCopy.Threads.GiveBack | src/firehose.cpp:652-655 | the written buffer joins the free ones and the filled ones keep their order |
| FastCopy.Threads.NeverShared | src/firehose.cpp:822-860 | the buffer being filled is never the one being written, and lies outside the part of the ring the other thread uses |
| FastCopy.Threads.Perform | src/firehose.cpp:611-666 | a protocol step done on the heap keeps the ring one cycle and has the protocol's effect |
| FastCopy.Replay | src/firehose.cpp:611-890 | every schedule of the two threads on the heap is the protocol's run, with each buffer once in one well-formed ring, and the file holds what the schedule says it should |
| FirehoseRead.Firehose.TakeByte | src/firehose.cpp:78-80 | one byte moves from the carry-over to the output |
| FirehoseRead.Firehose.CopyXml | src/firehose.cpp:78-88 | copying stops right behind the first terminator, at a full output or an empty carry-over, and loses nothing |
| FirehoseRead.Firehose.ReadXml | src/firehose.cpp:71-104 | an XML read fills the output with zeros behind its answer and gives its length, or -1 for none; the answer, what is carried over and what is lost are those XmlAnswered says, from what the port delivered |
| FirehoseRead.Firehose.ReadRaw | src/firehose.cpp:105-131 | a raw read answers from the carry-over if that is enough, without reading the port, and else with all of it and one read of the port; the rest of the output is as it was |
| FirehoseRead.Firehose.Write | src/firehose.cpp:175-175 | a packet goes to the port and into the history |
| FirehoseRead.TurnFacts | src/firehose.cpp:65-132 | no read answers more than it was asked for, no XML answer holds a terminator before its end, what is lost was lost by an overfull read, and answer, loss and carry-over make up what was there |
| FirehoseRead.CutBehindTerminator | src/firehose.cpp:78-104 | an XML read with "</data>" carried over within reach answers up to and with it, reads nothing and carries the rest over |
| FirehoseRead.DropsIff | src/firehose.cpp:75-104 | an XML read loses bytes exactly if no terminator ends among as many bytes as were asked for and there are more to look through |
| FirehoseRead.FiveForFour | src/firehose.cpp:75-97 | a read for four bytes with five carried over answers the first four and loses the fifth |
| FirehoseRead.ConservedIff | src/firehose.cpp:65-132 | over any history of reads and writes, the answers followed by the carry-over are the bytes received exactly if no read lost any, and the lengths always add up |
| FirehoseRead.OnlyOverfullLoses | src/firehose.cpp:65-132 | reads none of whose answers is as long as was asked for without a terminator at its end lose nothing |
| FirehoseRead.Session | src/firehose.cpp:65-132 | any mix of reads is added to the history with its answers in order; answers and carry-over are the bytes received exactly if nothing was lost, and nothing is if no answer is overfull |
| Configure.Connection.ReadStatus | src/firehose.cpp:252-279 | it makes XML reads until one says ACK or, failing that, NAK, or answers nothing; that is what it reports, and all it does is in the history |
| Configure.Connection.ConnectToFlashProg | src/firehose.cpp:134-215 | the recursion ends: the configure packets written are those for strictly decreasing sizes, from the first packet size down to the one in use; the status is success only if the last XML answer since the last packet says ACK, busy only after 50 questions and if it says NAK or is none, and a failed write only if there was no such read; no more than 50 questions are decided for one packet |
| ConfigureText.PacketSays | src/firehose.cpp:172-173 | the memory name and the flags are read back from a configure packet with the XML reader as they were configured, each unless the memory name holds its key |
| ConfigureText.SizeMeans | src/firehose.cpp:172-173 | so is the packet size, as a number with a sign |
| ConfigureText.AckMeans | src/firehose.cpp:172-173 | and how often raw data are acknowledged |
| ConfigureText.NameHidesIff | src/firehose.cpp:172-173 | an attribute is read as what stands behind the memory name exactly if the memory name holds its key |
| ConfigureText.PacketEnds | src/firehose.cpp:172-172 | a packet begins with "<?xml" and ends with the terminator that XML reads look for |
| Configure.MeaningOf | src/firehose.cpp:258-275 | a text is an acknowledgement exactly if "ACK" stands in it, and nothing exactly if neither that nor "NAK" does |
| Configure.SuccessIff | src/firehose.cpp:176-214 | it succeeds exactly if the last XML answer read says ACK, for an answer that ends within the buffer |
| Configure.FewSizes | src/firehose.cpp:186-200 | so there are no more packets than the first size exceeds the last, and one |
| Crc16.Table | src/crc.cpp:8-41 | every entry of the table is eight shifts of its index |
| Crc16.StepIsShift8 | inc/crc.h:11-12 | a table step is mixing the byte in and shifting eight times |
| Crc16.SerialByte | inc/crc.h:11-12 | eight shifts of the mixed register are eight steps of the bit-serial register |
| Crc16.CalcCRC16 | src/crc.cpp:43-51 | the table-driven loop is the bit-serial LSB-first register with polynomial 0x8408 on every message |
| Crc16.BurstErrorsDetected | src/crc.cpp:43-51 | two messages of one length that differ only within 16 consecutive bits never have the same checksum |
| Crc16.OddErrorsDetected | src/crc.cpp:43-51 | nor do two that differ in an odd number of bits |
| Crc16.GoodFcsIff | src/crc.cpp:43-51 | over a message and two more bytes the register ends at 0xF0B8 exactly if they are its checksum, low byte first (section C.2 of RFC 1662) |
| Crc16.BitsInjective | src/crc.cpp:43-51 | different messages of one length have different bits |
| Crc32.Reflect | src/partition.cpp:107-119 | the low bits of a word in the opposite order |
| Crc32.AppendedIsReversed | src/partition.cpp:107-119 | on 32 bits, what Reflect computes is the reversal of the word by swapping halves |
| Crc32.ReversedTwice | src/partition.cpp:107-119 | reversing is an involution |
| Crc32.FeedReversed | src/partition.cpp:134-141 | the MSB-first step on a reversed register is the reversed LSB-first step |
| Crc32.SerialReversed | src/partition.cpp:134-141 | and so for any number of bits |
| Crc32.MirroredByte | src/partition.cpp:131-142 | the bits of a reflected byte, highest first, are the byte's bits, lowest first |
| Crc32.FeedByte | src/partition.cpp:131-143 | the inner loop feeds a byte's bits, lowest first, to the mirrored register |
| Crc32.CalcCRC32 | src/partition.cpp:121-148 | the reflected MSB-first loop computes the LSB-first checksum with polynomial 0xEDB88320 of section C.3 of RFC 1662 |
| Crc32.GoodFcs | src/partition.cpp:121-148 | over every message and its checksum, lowest byte first, the register ends at 0xDEBB20E3 (section C.3 of RFC 1662) |
| Hdlc.FlagsOnlyAtEnds | src/serialport.cpp:298-323 | a frame has flags at its two ends and nowhere else (section 4.2 of RFC 1662) |
| Hdlc.StuffIs | src/serialport.cpp:306-316 | 0x7e is sent as 0x7d 0x5e, 0x7d as 0x7d 0x5d and all else as it is (section 4.2 of RFC 1662) |
| Hdlc.HDLCEncodePacket | src/serialport.cpp:298-323 | the encoder emits the stuffed packet and checksum, low byte first, between two flags |
| Hdlc.HDLCDecodePacket | src/usbport.cpp:270-297 | the decoder emits what as many rounds as there are bytes find, and fails exactly if the output is too short |
| Hdlc.DecodeStuffed | src/usbport.cpp:278-291 | rounds over a stuffed packet give the packet back, one byte a round |
| Hdlc.DecodeFrame | src/usbport.cpp:278-291 | decoding a frame gives packet and checksum and then what the bytes behind it say, as many rounds as there were escapes; only these can leave the buffer |
| Hdlc.DecodeExactIff | src/usbport.cpp:278-291 | decoding gives exactly packet and checksum if and only if those bytes are flags |
| Hdlc.EscapeReadsPast | src/usbport.cpp:278-291 | so not for any packet that holds a flag or an escape byte, if the frame is not followed by a flag |
| Hdlc.FlagPacketReadsPast | src/usbport.cpp:278-291 | for one, the packet of one flag byte with zeros behind its frame |
| Hdlc.ReceiveFrame | src/serialport.cpp:249-268 | the receiving loop finds the frame behind any number of flags, byte for byte, or fails with the port |
| Hdlc.ReceivePacket | src/serialport.cpp:249-274 | idle flags and a frame are received as the packet and its checksum, whatever follows, with nothing added exactly if flags lie behind the frame in the buffer |
| DiskSize.Disk.GetRawDiskSize | src/diskwriter_windows.cpp:857-888 | the search ends at the offset of the last readable sector after a number of reads logarithmic in the size, and no offset wraps around |
| DiskSize.Disk.RawReadTest | src/diskwriter_windows.cpp:703-720 | a read succeeds exactly below the end of the disk |
| DiskSize.Search.NextIsValid | src/diskwriter_windows.cpp:878-883 | each doubling or halving keeps the search's bounds and uses up one of the reads it has left |
| DiskSize.Search.Ends | src/diskwriter_windows.cpp:872-877 | the last read decides between two neighbouring sectors |
| DiskSize.Log2Is | src/diskwriter_windows.cpp:872-885 | the logarithm that bounds the reads is that to base 2, rounded down |
| EventHooks.EventLooper.FindP | src/sysdeps_win32.cpp:1372-1384 | the first hook of a handle, or the end |
| EventHooks.EventLooper.HookEvents | src/sysdeps_win32.cpp:1386-1416 | a handle's hook wants the new events too; without one a hook is added at the end |
| EventHooks.EventLooper.UnhookEvents | src/sysdeps_win32.cpp:1418-1437 | a handle's hook wants the events no more and goes if it wants nothing |
| EventHooks.EventLooper.Update | src/sysdeps_win32.cpp:1639-1656 | afterwards exactly the new events are wanted from the handle, and from the others what was before |
| EventHooks.HookedIs | src/sysdeps_win32.cpp:1398-1412 | adding keeps one hook a handle and the other handles' masks |
| EventHooks.UnhookedIs | src/sysdeps_win32.cpp:1425-1435 | taking away keeps one hook a handle, none of them empty, and the other handles' masks |
| EventHooks.Exchanged | src/sysdeps_win32.cpp:1645-1655 | taking away what is no longer wanted and adding what is newly wanted gives what is wanted |
| FdEvent.ApplyKeepsValid | src/sysdeps_win32.cpp:1857-1942 | every call keeps: an fdevent is queued, once, exactly if its state says pending |
| FdEvent.MasksAfter | src/sysdeps_win32.cpp:1888-1924 | which calls change the mask of a descriptor, and to what |
| FdEvent.NeverOvertaken | src/sysdeps_win32.cpp:1806-1837 | in every run an fdevent that goes on waiting is not overtaken by one that was not pending before it |
| FdLooper.Looper.PlistEnqueue | src/sysdeps_win32.cpp:1806-1814 | the node is the last of the pending ring |
| FdLooper.Looper.PlistRemove | src/sysdeps_win32.cpp:1816-1822 | the ring is what it was without the node |
| FdLooper.Looper.PlistDequeue | src/sysdeps_win32.cpp:1824-1837 | the first pending node leaves the ring, or none if there is none |
| FdLooper.Looper.EventHookSignal | src/sysdeps_win32.cpp:1345-1359 | a hook's signal makes its fdevent pending, behind the others, if it was not |
| FdLooper.Looper.FdeventInstall | src/sysdeps_win32.cpp:1857-1869 | a new fdevent is filed under its free descriptor and wants nothing |
| FdLooper.Looper.FdeventSet | src/sysdeps_win32.cpp:1888-1912 | hook and mask follow; an fdevent that has nothing pending left leaves the ring |
| FdLooper.Looper.FdeventAdd | src/sysdeps_win32.cpp:1914-1918 | the events are wanted besides those that were |
| FdLooper.Looper.FdeventDel | src/sysdeps_win32.cpp:1920-1924 | the events are wanted no more |
| FdLooper.Looper.FdeventRemove | src/sysdeps_win32.cpp:1871-1885 | neither table, ring nor hooks know the fdevent; the handle is closed exactly without FDE_DONT_CLOSE |
| FdLooper.Looper.ServeOne | src/sysdeps_win32.cpp:1935-1941 | the fdevent that waited longest is handed out with its events and is pending no more |
| FdLooper.Looper.HookIff | src/sysdeps_win32.cpp:1621-1656 | a handle has one hook, wanting just what its fdevent wants, or none if that is nothing |
| FdLooper.Looper.OnceOnRingIff | src/sysdeps_win32.cpp:1806-1837 | an fdevent is on the pending ring exactly if it is marked pending, and no node is on it twice |
| FdLooper.Replay | src/sysdeps_win32.cpp:1857-1942 | any sequence of calls on the heap keeps all this and has the effect on table and queue that FdEvent says, and hands out the descriptors that FdEvent says are served, in order |
| WaitForAll.DivideHandles | src/sysdeps_win32.cpp:1541-1578 | the loops make the chunks of at most 63 handles |
| WaitForAll.Partition | src/sysdeps_win32.cpp:1541-1578 | every handle is in exactly one chunk, nothing else is in any, and a chunk fits beside the main event |
| WaitForAll.StepKeepsInv | src/sysdeps_win32.cpp:1487-1511 | every step of a thread keeps the protocol's invariant, and an index that is set stays |
| WaitForAll.RunKeepsInv | src/sysdeps_win32.cpp:1487-1511 | so in every interleaving: the index is set at most once |
| WaitForAll.SignalsAreFree | src/sysdeps_win32.cpp:1487-1511 | handles may be signalled and reset at any time, which changes nothing else |
| WaitForAll.SeenWasReported | src/sysdeps_win32.cpp:1500-1506 | a handle that is recorded was reported by a wait while it was signalled, at its absolute index |
| WaitForAll.AnswerIsRight | src/sysdeps_win32.cpp:1523-1611 | the answer is the index of a handle some wait reported, or failure, and that only if a thread did not start or a wait failed; no thread is left |
| WaitForAll.AnswerWasSignalled | src/sysdeps_win32.cpp:1500-1506 | an answer that is no failure is a handle that was signalled when a wait on it returned |
| WaitForAll.RestIff | src/sysdeps_win32.cpp:1596-1603 | the threads come to rest only with the answer given, or all waiting and no handle signalled |
| WaitForAll.StepLowersRank | src/sysdeps_win32.cpp:1487-1611 | every step of the threads lowers a natural number, whatever signals come and go |
| WaitForAll.RunsAreBounded | src/sysdeps_win32.cpp:1487-1611 | so the threads take boundedly many steps |
| WaitForAll.StepsFromStart | src/sysdeps_win32.cpp:1523-1611 | from the start six for each thread and three more |
| HexRecords.DigitIs | src/dload.cpp:29-38 | what a hexadecimal digit, large or small, stands for |
| HexRecords.HexByteIff | src/dload.cpp:29-38 | two digits are read right exactly if the second is not a small letter |
| HexRecords.HexToByte | src/dload.cpp:29-38 | the bytes of the digits, and nothing else in the output changed |
| HexRecords.ParseLine | src/dload.cpp:279-305 | a line written as Intel HEX with capital digits is read as its record |
| HexRecords.FirstByteOf | src/dload.cpp:281-303 | the byte a line leaves in front of the buffer for answers is the upper byte of its offset, or of its segment |
| FlashProg.GoIsLast | src/dload.cpp:296-299 | execution starts where the last record of type 5 says |
| FlashProg.SameWritesIff | src/dload.cpp:271-333 | the packets write what the records ask for, in the same order, exactly if every batch's records lie one behind the other |
| FlashProg.ContiguousIsAligned | src/dload.cpp:285-292 | they do in files whose data records are contiguous within each segment |
| FlashProg.CommandSays | src/dload.cpp:317-325 | address, length and data can be read back from a write command |
| FlashProg.GoSays | src/dload.cpp:337-343 | so can the address from a start command, which is 0x05 and four bytes |
| HexBatches.ReadRecord | src/dload.cpp:279-305 | a line's record, its data put at their place in the buffer; what of its fields is left in the buffer for answers |
| HexBatches.CollectBatch | src/dload.cpp:276-312 | what is gathered, followed by what the other records give, is what all the records give; the end of the file is noticed one read late exactly if the last line has a line end |
| HexBatches.ReadingEndsIff | src/dload.cpp:276-312 | for every file, also without an end record, the loop that gathers a batch ends exactly if an end or segment record or enough data lies ahead, or the last line is such a record or brings data |
| HexBatches.EndsAtEndIff | src/dload.cpp:276-300 | at the last line it ends if that line stops it or brings data, after at most as many turns as bytes are missing, and never if not |
| HexBatches.LastLineLoops | src/dload.cpp:276-300 | so never at a last line that is blank, a start address or a data record without data, whatever was gathered |
| FlashLoader.PutHeader | src/dload.cpp:317-322 | the buffer starts with the write command |
| FlashLoader.LoadFlashProg | src/dload.cpp:252-356 | the commands are sent in order until one is not taken for acknowledged; success means all were, the last being the GO command; taken is what answers so, or does not answer while the buffer starts with 0x02 |
| FlashLoader.SucceedsIff | src/dload.cpp:325-353 | such a download succeeds exactly if all commands were sent and all taken for acknowledged; if not, the last one sent was not |
| FlashLoader.SerialPort.SendSync | src/serialport.cpp:244-273 | without an answer that fits, buffer and size stay as they are |
| FlashLoader.Send | src/dload.cpp:323-330 | a command is taken for acknowledged exactly if the answer says so, or there is none and the buffer started with 0x02 |
| FlashLoader.HonestIff | src/dload.cpp:325-353 | success means that every command was acknowledged, whatever the device answers, exactly if none is sent while the buffer starts with 0x02 |
| FlashLoader.StaleIsAckIff | src/dload.cpp:281-303 | a batch that a data record completes is sent over 0x02 exactly if the offset is 0x0200 to 0x02FF; a segment has to start at 0x02000000 to 0x02FF0000 |
| FlashLoader.SilentGo | src/dload.cpp:346-353 | in every file without a line end at the end whose last batch ends there, an acknowledged last batch makes an unanswered GO command count |
| FlashLoader.SilentGoSucceeds | src/dload.cpp:346-353 | for one, a file of one byte |
| FlashLoader.DownloadIff | src/dload.cpp:271-333 | for every file, a device that executes the commands writes what the records ask for one by one exactly if every batch's records lie one behind the other |
| FlashLoader.GapIsLost | src/dload.cpp:285-292 | two records with a gap of a byte between them are written without it |
| FlashLoader.DownloadOfContiguous | src/dload.cpp:271-333 | so it does for every file of contiguous records |
| FlashLoader.StartsOnce | src/dload.cpp:335-346 | for every file, the commands start a device once, at the address the records give |
| FlashLoader.StartsAtLast | src/dload.cpp:296-299 | which is that of the last record of type 5, or 0 without one |
| XmlValue.StringSetValue | src/xmlparser.cpp:126-149 | the line edited in place is the line with its value replaced |
| XmlValue.ParseXMLString | src/xmlparser.cpp:268-288 | the value between the quotes and a NUL, or an error exactly if there is none |
| XmlValue.SetThenGet | src/xmlparser.cpp:126-149 | reading a value that was set gives it, cut to the old one's length; the line's length and all outside the old value and its closing quote are unchanged |
| XmlValue.OthersKeep | src/xmlparser.cpp:126-149 | another key's value before it reads as it did |
| XmlValue.OthersBehindKeep | src/xmlparser.cpp:126-149 | a key behind it is found where it was exactly if the new value does not bring it in further ahead, and then its value reads as it did |
| XmlValue.NoValue | src/xmlparser.cpp:129-133 | without key or quote, setting changes nothing and reading fails |
| StartSector.StringReplace | src/xmlparser.cpp:151-177 | the first occurrence is replaced, in the buffer |
| StartSector.Evaluate | src/partition.cpp:173-240 | steps that each put their result over the last come down to one operator by priority, or a trap |
| StartSector.ParseXMLEvaluate | src/partition.cpp:166-241 | the same on the buffer, the number of sectors put in for its name |
| StartSector.NumberOfDigits | src/partition.cpp:171-171 | printing a number in decimal and reading it are inverse |
| StartSector.AtollOfDigits | src/partition.cpp:173-173 | atoll gives the printed number, cut to 63 bits |
| StartSector.AtollOfSigned | src/partition.cpp:173-173 | it gives a number with a sign, whatever follows that is no digit, or the nearest that fits |
| StartSector.AtollOfBlank | src/partition.cpp:173-173 | and skips blanks |
| StartSector.QuotientIs | src/partition.cpp:216-216 | a quotient leaves a rest with the sign of the dividend |
| StartSector.TrapsIff | src/partition.cpp:216-216 | a division traps exactly if there is no quotient, or none that fits into 64 bits with a sign |
| StartSector.PrintedFromStart | src/firehose.cpp:724-726 | a sector that is not negative is printed and evaluated as it is |
| StartSector.PrintedFromEndIff | src/firehose.cpp:716-721 | a negative one comes out as so many before the end exactly if nothing is cut |
| StartSector.Arithmetic | src/partition.cpp:196-238 | a sum, difference, product or quotient of two numbers is evaluated as that, in 64 bits without a sign; a division by 0 traps |
| StartSector.TwoOperators | src/partition.cpp:196-238 | of two different operators the one that counts is, whatever their order, the sum before the difference before the quotient before the product, between the number before the first operator and the one right behind it; a division by 0 traps either way |
| StartSector.SecondSign | src/partition.cpp:196-227 | a product whose second factor has a minus sign is evaluated as the difference, for all numbers below 2^63 |
| StartSector.FirstSign | src/partition.cpp:196-227 | one whose first factor has it, as minus that factor |
| StartSector.ProductWithSignIff | src/partition.cpp:196-227 | so they come out right exactly for 0 and 0, and exactly if the first factor is 0 or the second 1 |
| Sparse.LittleEndianRoundTrip | src/sparse.cpp:91-92 | header fields are read as they were written |
| Sparse.HeaderOf | src/sparse.cpp:91-92 | the twelve bytes of a chunk header give its type and size, and its data follow |
| Sparse.HeaderBytes | src/sparse.cpp:91-118 | the header byte by byte: 0xCAC1 for data, 0xCAC3 for what is skipped, sizes lowest byte first |
| Sparse.WriteAtOverlays | src/sparse.cpp:102-102 | writing data lays them over the disk and changes nothing else |
| Sparse.ProgramsTaken | src/sparse.cpp:89-129 | the chunks before the first that is empty or of unknown type are laid over the disk where they belong, and nothing else; the status is 0, errno or an error by what stopped it |
| Sparse.WritesIncrease | src/sparse.cpp:102-103 | the writes lie one behind the other without overlap |
| Sparse.WritesApart | src/sparse.cpp:102-103 | no two writes of a run overlap, and none is empty |
| Sparse.ProgrammedIff | src/sparse.cpp:89-129 | the image is programmed as a whole exactly if no chunk is of unknown type or raw and empty; then the disk is the image over the old one, the offset moved by all its blocks and the status 0 |
| Sparse.ZeroMeansAllIff | src/sparse.cpp:99-129 | a returned 0 means the whole image exactly if no raw chunk is empty before any of unknown type, or errno is not 0; what is returned is 0, errno or -10 |
| Sparse.EmptyChunkLosesRest | src/sparse.cpp:99-106 | with errno 0, an empty raw chunk before one of one block gives 0 and leaves the disk as it was |
| Sparse.ProgramNext | src/sparse.cpp:91-123 | one chunk read from the file has its effect, and the file stands at the next |
| Sparse.ProgramImage | src/sparse.cpp:72-138 | programming a file has the effect of its chunks |

## Left out

- BipBuffer.Bip.Write: a call that would block answers WouldBlock here; SocketPair models the waiting.
- BipBuffer.Bip.Read: so it is for a read of an empty open buffer.
- SocketPair.StepKeepsInv: memory is sequentially consistent; which end of a pair uses which of its two buffers, their release and the polling hooks are not modelled.
- CopyProtocol.FileIsPrefix: the list and condition variable are used under the mutex as one step each; the program path, which writes to the device, is not modelled.
- FastCopy.Replay: a buffer's data are a sequence, not C memory.
- FirehoseRead.Session: the port delivers a finite stream, in any portions; a read that fails delivers nothing.
- ConfigureText.PacketSays: memory names of one-byte characters, without a quote, which the code would not escape.
- Configure.Connection.ConnectToFlashProg: whether a write succeeds and the size named in a refusal come from outside; logging, the sector size of UFS and the rawmode flags are not modelled, nor is a failing clock or allocation.
- Configure.Connection.constructor: packet sizes below 4096, which the command line accepts and for which the XML reads go beyond m_payload, are not modelled.
- Crc32.Reflect: lengths up to 32, beyond which the shift is undefined in C.
- Hdlc.ReceivePacket: frames that fit into the receive buffer and that the decoder reads without leaving it.
- Hdlc.ReceiveFrame: the port's contract is that of src/serialport.cpp; Read and Write of src/usbport.cpp, where a success of Write is a byte count, are not modelled.
- DiskSize.Disk.GetRawDiskSize: disks so small that no offset wraps around 64 bits, and sector sizes whose first step fits an int.
- DiskSize.Disk.RawReadTest: an ideal disk, on which reads below its end succeed; read errors and the overlapped events are not modelled.
- FdEvent.MasksAfter: FDE_DONT_CLOSE lies inside the event mask and is treated as the code does, as a wanted event; nothing is claimed about which pending events survive fdevent_set.
- EventHooks.EventLooper.HookEvents: the call of the hook function of the handle's class is not modelled, nor is a descriptor without a handle.
- FdLooper.Looper.FdeventInstall: a descriptor that is already installed, whose entry the code overwrites, and one out of range, which ends the program, are not modelled, nor is the growing of the table, whose new half is cleared with the size of an int for each pointer.
- FdLooper.Looper.EventHookSignal: fdevent_process, which finds out which hooks are ready, is not modelled beyond this call.
- WaitForAll.AnswerIsRight: failing to allocate the parameters or the main event, which answers WAIT_FAILED at once, is not modelled.
- FlashLoader.LoadFlashProg: files that can be opened and whose last line, and no other, is the end record, with at most 18 bytes in a record and less than 128 characters in a line; addresses that wrap around 32 bits within a record are counted on. A failing write, a failing read and a frame too long for the buffer are one case, no answer.
- HexBatches.ReadRecord: lines whose digits are not all there, which the code reads anyway, are not modelled.
- HexRecords.ParseLine: checksums are not verified, as the code does not.
- XmlValue.StringSetValue: a value that is opened has to be closed.
- StartSector.Evaluate: the branch for CRC32, whose two arguments are evaluated into the partition entry, is not modelled.
- StartSector.ParseXMLEvaluate: expressions with CRC32 and the fixed sizes of the operand buffers are not modelled; sums, differences and products wrap around.
- Sparse.ProgramImage: fill chunks, whose payload the code does not take from the file, truncated images, sizes that overflow 32 bits, failing writes and images that were not loaded are not modelled; errno is one value for the run, and memory never runs out.
- Reading and checking of the XML partition files, Sahara, FFU images, GPT printing, device enumeration and the console are not modelled.
