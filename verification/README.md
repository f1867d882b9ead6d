# BridgeSessions: verified models

BridgeSessions is a mesh daemon: nodes keep terminal sessions, move files and share desktops over one
TLS link per pair of peers. Most of it is sockets. Inside are pieces of byte arithmetic, buffer state
and protocol logic that can be stated exactly. This project models those pieces in Dafny, each in the
form that the C++ has (buffers and tables as classes and arrays, loops with invariants, protocols as
steps of their threads or nodes), gives each one a specification that does not follow its code, and
proves that the two agree on all inputs or in all runs.

`dafny verify dfyconfig.toml` checks everything.

## The pieces

| file | what it models | specification it is held against |
|---|---|---|
| `Checksums.dfy` | CRC-32 bit loop, Adler-32 loop | long division of GF(2) polynomials with a unique quotient and remainder; unreduced sums |
| `ImageEncode.dfy` | BMP to PNG | a BMP writer; a PNG decoder after RFC 2083, RFC 1950 and RFC 1951 |
| `Scrollback.dfy` | ring buffer, SCROLLBACK polling | the unbounded history of everything written |
| `Wire.dfy`, `Messages.dfy`, `ServerInfos.dfy`, `Frames.dfy` | serializer, decoder, all 42 messages, both frame forms | decode after encode; cutting a stream of frames |
| `TransferPlan.dfy` | chunk arithmetic of file transfers | the split of a file into equal pieces |
| `IpcLines.dfy` | incremental reading of IPC lines | a batch splitter over the whole stream |
| `WorkerStream.dfy` | worker socket: both senders' partial writes, the daemon's reassembly | one parse of the whole stream |
| `Duplicates.dfy`, `LinkRace.dfy` | duplicate resolution at one end and at two, with what closing a link entails | who survives, stated without the scan; steps of two ends |
| `DialDeferral.dfy` | tie-break deferral of outbound dials | who waits, and for how long |
| `ExecHandover.dfy` | `exec_busy`: event loop, queue, workers, shutdown | one holder per connection, one end per task |
| `Levenshtein.dfy` | two-row edit distance | shortest edit scripts; a metric |
| `Glob.dfy` | glob matching | the language that a pattern denotes |
| `Base64.dfy`, `Osc52.dfy` | two base64 coders, the OSC 52 scanner | each other's inverse; streams of text and sequences |
| `Dht.dfy` | Kademlia table | XOR distance as a 256-bit number |
| `Bytes.dfy`, `Sequences.dfy`, `Keys.dfy` | big-endian integers; finding, erasing and joining; order and case of names | |

## What turned out not to hold

The obvious claim is false in these places. Each has a lemma with the input and a lemma that says exactly
when the claim holds.

* PNG: RFC 2083, section 3.2, limits a chunk to 2^31 - 1 bytes. `bmp_to_png` accepts images whose single
  IDAT chunk is longer. A decoder that enforces the limit reads the image exactly if the stored zlib stream
  fits (`ImageEncode.BmpToPng`, `ImageEncode.LargestIsTooLarge`).
* `exec_busy`: `execute_long_operation_task` clears the flags at its end (bs-mesh-transfer.h:1356-1359) and
  `worker_loop` clears them again. Between the two the loop may hand the connection to another task; the
  second clearing then makes the loop use a transport that a worker is using. docs/design.md:28 promises that
  no two threads touch one `SSL*`. A run of either kind of handler keeps one owner for each connection,
  whatever the workers do next, exactly if no claim in it is early, that is, made while a worker has yet to
  clear the flag again (`ExecHandover.HandOverIsSafeIff`). A handler that leaves the flags alone cannot be
  early; the one that clears them can, and then the loop clashes with a handler
  (`ExecHandover.ReleasingHandlerClashes`, `ExecHandover.SafeIffPoolReleases`).
* Duplicate links: the comment at bs-mesh-conn.h:1211-1223 says that both ends keep the single connection
  that the smaller key opened. With two of those, promoted in different orders at the two ends, each end drops
  what the other keeps and no link is left (`LinkRace.TwoDialsMayLoseBoth`). All runs with the same dials that
  come to rest leave both ends with one and the same link exactly if there is only one link or exactly one that
  the smaller key opened (`LinkRace.AgreementIff`); for any other dials there is a run that loses every link
  (`LinkRace.LosingRun`).
* Dial deferral: with a key known on one side only, the sides compare different things and both may wait
  (`DialDeferral.BothMayDefer`); exactly one waits if and only if the two orders agree
  (`DialDeferral.HalfKnownKeys`). Where the keys cannot be told apart, exactly one waits if and only if both have
  a name and the names differ beyond their case (`DialDeferral.ExactlyOneDefersByName`).
* ServerInfo: the length bytes can be newlines that the decoder takes for the old format, and a latency table
  without host metrics moves into their place (`ServerInfos.ServerInfoRoundTripIff`).
* `b64dec` treats `=` as data: it undoes `base64_encode` exactly for whole groups of three bytes
  (`Base64.B64DecUndoesPaddedIff`).
* `pump_hosted_session` hears frames behind a DIED frame in the same call only
  (`WorkerStream.CuttingMattersAfterDeath`). How the stream is cut does not matter exactly if, behind the first
  death, OUTPUT and SCROLLBACK frames are empty and a further DIED frame repeats the recorded exit or is too
  short to have one (`WorkerStream.CuttingDoesNotMatterIff`).
* Scanning for OSC 52 twice can find what scanning once did not (`Osc52.ScanAgainFindsMore`). It does exactly if
  the text on one side of a removed sequence and the text on the other side make a complete sequence together
  (`Osc52.ScanAgainIff`).
* A SCROLLBACK client whose offset is past the end, as after a clear, is told to stay there
  (`Scrollback.StaleOffsetStalls`).

## Model

| member | source | states |
|---|---|---|
| Checksums.PolynomialIsTheGenerator | bs-image-encode.h:32 | 0xEDB88320 has, bit-reversed, exactly the powers of the generator polynomial of RFC 2083 |
| Checksums.DivideDivides | bs-image-encode.h:27-35 | long division returns q and r with p = q * generator + r and r of lower degree |
| Checksums.DivisionIsUnique | bs-image-encode.h:27-35 | no other q and r do |
| Checksums.RunIsRemainder | bs-image-encode.h:31-32 | the shift register, fed one bit at a time from any start value, ends with the remainder of what is pending |
| Checksums.ByteBits | bs-image-encode.h:30 | eight bits, the lowest first, that make the byte's value |
| Checksums.ByteAtOnce | bs-image-encode.h:30-32 | xoring a whole byte in and shifting eight times is feeding its eight bits |
| Checksums.PngCrc32 | bs-image-encode.h:27-35 | the loop returns the inverted remainder of the message with 32 zeros appended and its first 32 bits inverted, for inputs of any length |
| Checksums.CrcIsTheRemainder | bs-image-encode.h:27-35 | any polynomial of degree below 32 that differs from the augmented message by a multiple of the generator is the one whose inverse is the CRC |
| Checksums.PngAdler32 | bs-image-encode.h:37-44 | the per-byte reductions give the unreduced sums of RFC 1950 modulo 65521, without leaving 32 bits |
| ImageEncode.ParseBmp | bs-image-encode.h:95-116 | accepted headers give sides from 1 to 32768 and all rows inside the file |
| ImageEncode.ParsedIff | bs-image-encode.h:95-116 | over the header bytes: which files are accepted, and with which offset, sides and row order |
| ImageEncode.WrittenShows | bs-image-encode.h:88-133 | a BMP writer (either row order, any gap, padding, reserved fields and trailing bytes) writes files that show its image |
| ImageEncode.ShownIsRead | bs-image-encode.h:95-133 | a file that shows an image, by its header bytes and its rows in blue, green, red with their padding, is read as that image |
| ImageEncode.ReadIsShown | bs-image-encode.h:95-133 | and every file that is accepted shows the image that is read |
| ImageEncode.PixelInside | bs-image-encode.h:122-132 | every pixel of every file row lies inside the file |
| ImageEncode.PixelsOfRow | bs-image-encode.h:127-132 | the decoder reads the bytes of a row back to its pixels |
| ImageEncode.UnfilterOfRaw | bs-image-encode.h:120-133 | filter-0 rows decode to the rows, no byte more or less |
| ImageEncode.InflateOfBlocks | bs-image-encode.h:137-151 | a stored-block decoder that checks every NLEN and stops at the first final block gives the data back and leaves what follows |
| ImageEncode.UnzlibOfZlib | bs-image-encode.h:135-152 | header check, blocks and Adler-32 of the zlib stream are accepted and give the rows |
| ImageEncode.ReadChunkOf | bs-image-encode.h:72-84 | a chunk is read back, CRC checked, whatever follows, exactly if its length is within the decoder's limit |
| ImageEncode.DecodeOfPng | bs-image-encode.h:135-166 | the decoder returns the image exactly if the data chunk is within its limit |
| ImageEncode.BlocksSize | bs-image-encode.h:139-151 | five bytes of header per started 65535 bytes |
| ImageEncode.SizesFit | bs-image-encode.h:114-116 | every length of every accepted image fits 32 bits |
| ImageEncode.PutRow | bs-image-encode.h:122-132 | one scanline: filter byte, then red, green, blue of the image row, for both row orders |
| ImageEncode.PutBlocks | bs-image-encode.h:135-151 | the block loop writes the specified stored blocks |
| ImageEncode.PutChunk | bs-image-encode.h:72-84 | appends one chunk with the CRC of type and data |
| ImageEncode.WritePng | bs-image-encode.h:135-166 | the whole file, its zlib stream having the computed size |
| ImageEncode.BmpToPng | bs-image-encode.h:90-167 | a PNG exactly for the files that show an image; it decodes to that image, under the limit of RFC 2083 exactly if the zlib stream fits it |
| ImageEncode.LargestIsTooLarge | bs-image-encode.h:112 | an accepted image whose data chunk RFC 2083 does not allow |
| Scrollback.RingBuffer.constructor | bs-session.h:12-48 | an empty history |
| Scrollback.RingBuffer.Write | bs-session.h:50-86 | the history grows by exactly the data, of any size, wrapping, filling or rotating |
| Scrollback.RingBuffer.Linear | bs-session.h:172-181 | both copies give the last min(total, capacity) characters in order |
| Scrollback.RingBuffer.Snapshot | bs-session.h:106-125 | the last min(total, capacity) characters of the history |
| Scrollback.RingBuffer.TotalWritten | bs-session.h:95-97 | the length of the history |
| Scrollback.RingBuffer.ReadSince | bs-session.h:131-161 | what follows the offset, or the newest 64 KiB with RESET when more is unread or lost |
| Scrollback.RingBuffer.ReadLastLines | bs-session.h:164-201 | the last n lines of the window, a line being a stretch up to and with its newline |
| Scrollback.RingBuffer.ReadRange | bs-session.h:204-223 | a slice of the window |
| Scrollback.RingBuffer.Clear | bs-session.h:226-229 | an empty history |
| Scrollback.RingBuffer.Poll | bs-mesh-cli.h:927-955 | the answer to SCROLLBACK as a function of the history |
| Scrollback.LinesShape | bs-session.h:183-198 | lines joined are the text, none is empty, and their number is that of the newlines plus an unfinished one |
| Scrollback.LastLinesCut | bs-session.h:183-198 | the backward newline count stops where the last n lines begin |
| Scrollback.PollIsFaithful | bs-session.h:131-161 | RESET exactly when more than 64 KiB (or the window) is unread, then the newest characters; the cursor is the live edge |
| Scrollback.PollingIsFaithful | bs-mesh-cli.h:927-955 | over any run of writes and polls, chunks without RESET concatenate to exactly what was written between the cursors; after a RESET to what ends at the cursor |
| Scrollback.StaleOffsetStalls | bs-mesh-cli.h:927-955 | the answer moves the cursor to the live edge exactly for offsets that are not past it |
| Wire.Serializer.PutBe | bs-codec.h:918-919 | the shift loops push the big-endian bytes |
| Wire.Serializer.PutStr8 | bs-codec.h:922-926 | throws above 255 bytes, else length and bytes |
| Wire.Serializer.PutStr16 | bs-codec.h:927-931 | throws above 65535 bytes, else length and bytes |
| Wire.Serializer.PutAll | bs-codec.h:910-932 | a list of fields appends their encodings, or throws exactly if one of them does |
| Wire.Decoder.TakeBe | bs-codec.h:1203-1222 | reads the big-endian number, throws exactly if bytes are missing |
| Wire.Decoder.Take | bs-codec.h:1191-1238 | one read: the value, the rest, or a throw |
| Wire.Decoder.TakeAll | bs-codec.h:1191-1238 | a run of reads |
| Wire.BigEndianIsBe64 | bs-codec.h:919 | eight shifts write the high and the low half |
| Wire.ReadBack | bs-codec.h:910-1238 | any field is read back whatever follows it, optional or not |
| Wire.ReadAllBack | bs-codec.h:910-1238 | so is any list of fields |
| Wire.ReadsOldSender | bs-codec.h:1749 | fields cut off at an optional boundary read as the leading fields and the defaults of the others |
| Wire.ReadItemsBack | bs-codec.h:1751-1760 | lists without a count come back whole, or are refused exactly above the decoder's maximum |
| Messages.SimpleRoundTrip | bs-codec.h:1733-2058 | the messages that are read field by field come back as they were |
| Messages.OldSendersAreRead | bs-codec.h:1749 | Attach, FileMeta, FileRequest and JoinRequest payloads cut at any optional boundary give the leading fields and the documented defaults |
| Messages.SessionListRoundTrip | bs-codec.h:960-967 | sessions come back with their uptimes saturated at 32 bits |
| Messages.HelloRoundTrip | bs-codec.h:982-992 | the header and all peers, last_seen modulo 2^32 |
| Messages.GossipRoundTrip | bs-codec.h:993-1000 | all peers, last_seen modulo 2^32 |
| Messages.BatchRoundTrip | bs-codec.h:1970-1986 | up to 512 messages come back, more are refused |
| Messages.ClipboardRoundTrip | bs-codec.h:1738-1747 | hash and text, split at the first newline, under both type bytes |
| Messages.JoinReplyRoundTrip | bs-codec.h:2032-2044 | the half that the flag stands for |
| Messages.PayloadRoundTrip | bs-codec.h:934-1129 | for every message but ServerInfo, decode after serialize |
| Messages.CanonIsIdentityIffExact | bs-codec.h:934-1129 | which messages come back unchanged |
| Messages.WrittenIff | bs-codec.h:908-1129 | serialize throws exactly for strings above 255 or 65535 bytes behind their length fields, images above 50 MiB and chunks above 4 MiB |
| Messages.OutputBytes | bs-codec.h:935 | terminal output: one flag byte, then the text |
| ServerInfos.ServerInfoRoundTripIff | bs-codec.h:1762-1801 | ServerInfo comes back exactly if its payload has fewer than two newline bytes and no latency table without host metrics |
| ServerInfos.TenByteNamesDoNotSurvive | bs-codec.h:1762-1801 | the length bytes of ten-byte names are such newlines |
| ServerInfos.NewlineFormReads | bs-codec.h:1762-1786 | the form of old senders: name and version up to their newlines, then as many of the other fields as were sent, defaults for the rest |
| Frames.Serialize | bs-codec.h:934-1129 | serialize_msg through the serializer, list items included |
| Frames.HeaderSays | bs-codec.h:1664-1710 | stream, type, flags, form and length are read from either header, whatever follows |
| Frames.FrameIsSelfDelimiting | bs-codec.h:1651-1710 | frame_header_layout finds the end of every encoded frame; the u32 form is used exactly when allowed and needed |
| Frames.SmallPeersSeeSmallFrames | bs-codec.h:1649-1692 | without allow_large no frame carries FLAG_LENGTH_U32 and none exceeds 65535 bytes of payload |
| Frames.EncodedIff | bs-codec.h:1651-1692 | encode returns a frame exactly if the message can be serialized, the payload is at most 4 MiB (65535 bytes without allow_large), and the compressed form of more than 256 bytes exists and is within the same limit |
| Frames.FrameBytes | bs-codec.h:1664-1692 | the frame byte by byte: stream, type, flags 1, 2 and 8, length in two or four bytes, payload |
| Frames.ChunksAreEncoded | bs-codec.h:1657-1676 | a file chunk of up to 4 MiB less twelve bytes is encoded for a peer that allows large frames |
| Frames.FrameCarriesPayload | bs-codec.h:1712-1734 | decoding a frame, with anything behind it, decodes the serialized payload |
| Frames.NothingIsNotUnpacked | bs-codec.h:1726-1730 | an empty payload is never decompressed, whatever the flags |
| Frames.FrameRoundTrip | bs-codec.h:1651-2060 | whatever encode returns, decode gives the message back, for all messages but ServerInfo; when it returns a frame is EncodedIff |
| Frames.ServerInfoFrameRoundTripIff | bs-codec.h:1651-2060 | and for ServerInfo exactly under its condition |
| Frames.StreamSplits | bs-codec.h:1694-1710 | encoded frames, one after the other, are told apart by their headers alone |
| TransferPlan.EffectiveChunkSize | bs-codec.h:1336-1346 | a size in the safe range, the declared one if it is there, the default for none |
| TransferPlan.SplitShape | bs-codec.h:1517-1576 | the pieces sum to the file, are no larger than the chunk size, and are as many as the division rounded up |
| TransferPlan.NotBeforeTheLast | bs-codec.h:1550-1576 | no earlier piece completes a file that has bytes |
| TransferPlan.PlanCountsPieces | bs-codec.h:1517-1548 | metadata is accepted exactly for the number of pieces, within the limits |
| TransferPlan.RestOfPlan | bs-codec.h:1550-1576 | from any point on, the rest is accepted exactly with the sizes of the rest of the split |
| TransferPlan.PlanIsExact | bs-codec.h:1517-1576 | a transfer runs to its last chunk exactly when its sizes are the split of the file |
| TransferPlan.AcceptedIffSplit | bs-codec.h:1517-1576 | of all runs of chunks, however numbered, only the split, numbered from zero with the announced total, is accepted up to the last chunk |
| IpcLines.Reader.Consume | bs-codec.h:1602-1632 | one call: the progress lines, the terminal line and what stays pending |
| IpcLines.ScanIsBatch | bs-codec.h:1611-1630 | the line loop reads a text as a batch splitter does |
| IpcLines.ScanSplit | bs-codec.h:1611-1630 | reading may stop after any prefix and go on with what it left |
| IpcLines.ChunkingDoesNotMatter | bs-codec.h:1602-1632 | under every cutting in which the limit does not strike, the lines are those of the batch reading, and what follows the terminal line stays |
| IpcLines.ShortLinesNeverOverflow | bs-codec.h:1605-1609 | when the limit cannot strike |
| IpcLines.ExchangeIsRead | bs-codec.h:1611-1630 | of lines with either line end: the exchange ends with the first that starts with OK and a space or with ERROR; those that start with PROGRESS and a space are handed on |
| WorkerStream.Session.QueueFrame | bs-pty.h:754-776 | a frame that fits joins the queue, and what the writes take leaves it from the front; oversize frames and closed sessions change nothing |
| WorkerStream.Session.WriteOut | bs-pty.h:764-775 | what the writes take moves from the queue to the socket, none lost or repeated |
| WorkerStream.FlushesAll | bs-pty.h:764-769 | with enough writes accepted, and others only interrupted, everything goes out |
| WorkerStream.FlushStops | bs-pty.h:769-774 | a write that would block or fails ends the attempt and takes nothing back |
| WorkerStream.WorkerClient.constructor | bs-session-worker.h:512-522 | nothing queued and nothing sent |
| WorkerStream.WorkerClient.QueueToClient | bs-session-worker.h:524-535 | a frame is queued whole, exactly if the backlog stays within 4 MiB |
| WorkerStream.WorkerClient.FlushClient | bs-session-worker.h:540-558 | what the writes take is sent, the rest stays pending; false exactly for a hard error; at most 64 KiB of consumed prefix stay |
| WorkerStream.Session.Drain | bs-pty.h:791-799 | the buffer grows by what the reads gave, and an end of file or error marks the worker dead |
| WorkerStream.Session.TakeFrames | bs-pty.h:801-839 | the frame loop hands out the payloads of the complete frames and keeps the rest |
| WorkerStream.Session.Pump | bs-pty.h:787-840 | one call: reads, then frames |
| WorkerStream.CallAccumulates | bs-pty.h:787-840 | what one call adds does not depend on what earlier ones handed out |
| WorkerStream.RunIsOneParse | bs-pty.h:787-840 | a run of calls is one parse of the bytes taken in, garbage included |
| WorkerStream.FramesParse | bs-pty.h:803-836 | frames as they are written parse to what they say |
| WorkerStream.DeliversCompleteFrames | bs-pty.h:787-840 | over any cutting into reads and calls, exactly the complete frames are heard, an end of file included, and the leftover is below 16 MiB + 5, so the 32 MiB guard does not fire |
| WorkerStream.DeathIsHeard | bs-pty.h:820-828 | the first death is heard, with everything before it |
| WorkerStream.CuttingDoesNotMatter | bs-pty.h:787-840 | a stream in which nothing follows a death is heard alike under every cutting |
| WorkerStream.CuttingMattersAfterDeath | bs-pty.h:789 | frames behind a death are heard in the same call only |
| WorkerStream.CuttingDoesNotMatterIff | bs-pty.h:787-840 | any stream is heard alike under every cutting exactly if each frame behind its first death is empty output, empty scrollback, a repetition of the recorded exit, or of a kind that carries nothing |
| WorkerStream.EndToEnd | bs-session-worker.h:524-558 | the worker's sender and the daemon's pump together: whatever of the sent bytes was offered in whatever pieces, what is heard are the frames that lie complete in the bytes taken in, from the front |
| WorkerStream.EndToEndComplete | bs-pty.h:787-840 | when everything queued was sent and offered, and no frame but the last is a death, every frame is heard |
| WorkerStream.LastWords | bs-pty.h:803-828 | byte for byte: history, output and a DIED frame with any 32-bit exit code and signal in two's complement, in any pieces, are heard as such |
| Duplicates.Mesh.CloseConn | bs-mesh-conn.h:871-902 | a busy connection is only marked; another one is closed, its file receive and session dropped, its gossip forgotten, the session's viewer detached exactly if no other open link of the peer is attached to it |
| Duplicates.Mesh.HasReplacementTransport | bs-mesh-conn.h:858-868 | another open connection of the same key is attached to the same session |
| Duplicates.Mesh.DetachSession | bs-mesh-transfer.h:2169-2184 | the connection loses its session, the session its viewer unless replaced |
| Duplicates.Mesh.RemoveConn | bs-mesh-conn.h:841-855 | a busy connection is only marked; another one is closed and erased and its address held off for ten seconds |
| Duplicates.Mesh.ResolveDuplicates | bs-mesh-conn.h:1224-1253 | terminates; when no removal is deferred, exactly the specified survivors are left, in order, and every other address is held off; a peer that was attached to a session is attached still or was detached, never both |
| Duplicates.DropKeepsLedger | bs-mesh-conn.h:858-868 | removing any link keeps that account |
| Duplicates.LoserOfPair | bs-mesh-conn.h:131-143 | of any pair of duplicates the one that is dropped is not a survivor |
| Duplicates.SurvivesWithout | bs-mesh-conn.h:1224-1253 | dropping a loser changes nothing about who survives |
| Duplicates.KeptHasNoRivals | bs-mesh-conn.h:1211-1223 | at most one open mesh connection for each non-empty key is left |
| Duplicates.KeptReachesEveryPeer | bs-mesh-conn.h:1211-1223 | and at least one for every key that had one |
| Duplicates.OneSurvivor | bs-mesh-conn.h:1211-1223 | two links to the same peer are never both survivors |
| Duplicates.OthersSurvive | bs-mesh-conn.h:138-143 | connections that are closed, of another purpose or without a key are never touched |
| Duplicates.SurvivesIff | bs-mesh-conn.h:1211-1253 | of the open mesh links with a key: of those that the smaller key opened the newest, and only without any the newest of the others |
| Duplicates.HoldsOff | bs-mesh-conn.h:845-851 | one address waits ten seconds, longer delays and more attempts stay, no other entry changes |
| Duplicates.BothEndsWantTheSame | bs-mesh-conn.h:1215-1222 | the two ends of a link want the same of it, the link that the smaller key opened |
| LinkRace.DropFavoursWanted | bs-mesh-conn.h:131-136 | a link that the smaller key opened is dropped only in favour of another one it opened |
| LinkRace.RunKeepsInv | bs-mesh-conn.h:1211-1253 | over every run of dials, promotions, drops and closes seen at two ends, a link is closed only if another was dialled that the rule does not rank below it |
| LinkRace.CrossingDialsConverge | bs-mesh-conn.h:1211-1223 | if the smaller key opened one link, or one link is all there is, neither end ever closes it, and once all is quiet it is the one link of both ends |
| LinkRace.DropKeepsSurvivor | bs-mesh-conn.h:1224-1253 | whichever pair an end resolves, its survivor stays |
| LinkRace.DropsLeaveSurvivor | bs-mesh-conn.h:1224-1253 | one end alone, resolving in any order, is left with its survivor |
| LinkRace.AgreementIff | bs-mesh-conn.h:1211-1223 | all runs with the same dials that come to rest leave both ends with one link, the same, exactly if one link is all there is or the smaller key opened exactly one |
| LinkRace.LosingRun | bs-mesh-conn.h:1211-1253 | for any other dials a run that leaves no link at either end |
| LinkRace.ComesToRest | bs-mesh-conn.h:1224-1253 | without further dials every run comes to rest |
| LinkRace.KeptIsSurvivor | bs-mesh-conn.h:1224-1253 | what resolve_duplicates keeps of one end's links is that end's survivor alone |
| LinkRace.TwoDialsMayLoseBoth | bs-mesh-conn.h:1211-1223 | two links that the smaller key opened are enough: both are lost |
| DialDeferral.DialGate.ShouldDeferOutbound | bs-mesh-conn.h:788-828 | one address moves by one step of its own entry, all others stay |
| DialDeferral.DialGate.ClearAcceptOnly | bs-mesh-conn.h:766-775 | the dialled and the advertised address are forgotten, no other |
| DialDeferral.ExactlyOneDefers | bs-mesh-conn.h:777-786 | of two peers with distinct known keys exactly one waits, the one with the larger key |
| DialDeferral.ExactlyOneDefersByName | bs-mesh-conn.h:777-786 | where neither side can tell the keys apart (unknown, or the same), exactly one waits if and only if both have names that differ beyond case; it is the one whose name comes later |
| DialDeferral.HalfKnownKeys | bs-mesh-conn.h:777-786 | with one key known, for all names: exactly one waits if and only if the orders agree, both if and only if the one that knows is behind by key and before by name |
| DialDeferral.BothMayDefer | bs-mesh-conn.h:777-786 | both waiting, concretely |
| DialDeferral.ProbePeriod | bs-mesh-conn.h:788-828 | permitted probes are at least 756000 ms apart, and at most 756000 + 6 d with polls every d, over any polling times |
| DialDeferral.FirstContact | bs-mesh-conn.h:791-799 | a peer never seen before is first dialled within the same bounds |
| ExecHandover.StepKeepsOwner | bs-mesh-support.h:1074-1129 | every step of loop, queue and workers keeps one holder per busy connection and none for others |
| ExecHandover.StepKeepsAccounts | bs-mesh-support.h:1074-1129 | every step keeps every task in exactly one place |
| ExecHandover.StepKeepsInv | bs-mesh-support.h:1074-1129 | every step but an early claim keeps the whole invariant, at most 64 queued tasks included |
| ExecHandover.HandOverIsSafe | bs-mesh-cli.h:1023-1049 | so does every run of any number of workers without early claims |
| ExecHandover.OneThreadPerTransport | docs/design.md:28 | what a worker holds is one live connection that the loop is not using and that no queued task and no other worker holds |
| ExecHandover.BusyHasHolder | bs-mesh-conn.h:869-875 | the flag is never left set by nobody |
| ExecHandover.ClosingSparesHeld | bs-mesh-conn.h:869-875 | no held connection is closed or erased |
| ExecHandover.DeferredCloseIsKept | bs-mesh-conn.h:871-876 | a close that is put off stays requested, whatever follows, until the connection is closed |
| ExecHandover.CompletedBeforeCleared | bs-mesh-support.h:1123-1124 | whoever clears exec_busy has set exec_completed |
| ExecHandover.CompletedMeansEnded | bs-mesh-cli.h:1032 | without early claims exec_completed is never set while a task waits or runs |
| ExecHandover.SilenceIsNotJudgedAcrossHandOvers | bs-mesh-conn.h:157-170 | the heartbeat check judges a connection only if nothing was handed over since last_pong was refreshed |
| ExecHandover.SilenceIsJudgedAgain | bs-mesh-conn.h:157-170 | a held connection is never judged; once given back it is refreshed once and then judged again |
| ExecHandover.AtMostOneEnd | bs-mesh-support.h:1074-1129 | a task is refused or finished at most once, never both, and is nowhere else then |
| ExecHandover.ShutdownLosesNothing | bs-mesh-support.h:1090-1099 | once the workers have left after a shutdown, every task was refused once or finished once |
| ExecHandover.ShutdownCanComplete | bs-mesh-support.h:1090-1099 | from any point of any run a shutdown can run to its end, every waiting task taken first and every worker gone |
| ExecHandover.RefusedExactlyWhenFull | bs-mesh-support.h:1077-1085 | in every run: a task is refused exactly after a shutdown or while 64 wait, and queued at the end otherwise |
| ExecHandover.SixtyFourAreTaken | bs-mesh-support.h:1077-1085 | of 64 tasks or fewer none is refused before a shutdown |
| ExecHandover.FirstBuiltFirstServed | bs-mesh-support.h:1110-1115 | in every run tasks leave the queue in the order in which they were built |
| ExecHandover.WorkersFinish | bs-mesh-support.h:1105-1129 | the workers alone can bring every task to its end, from any state a run can reach |
| ExecHandover.EveryFlagCanClear | bs-mesh-support.h:1116-1124 | so no connection has to stay busy |
| ExecHandover.CancelledNeverRuns | bs-mesh-support.h:1116-1122 | a task cancelled before its handler started never runs |
| ExecHandover.CancelStopsQueued | bs-mesh-cli.h:1033-1049 | cancelling a connection whose task waits stops that task for good: the flag it sets is that task's |
| ExecHandover.EarlyClaimLosesTheFlag | bs-mesh-transfer.h:1356-1359 | from any state, an early claim leads, by steps of the workers alone, to a connection that is held while its flag is clear |
| ExecHandover.OwnedIffNeverEarly | bs-mesh-support.h:1116-1124 | from any state with the invariant: one owner in every state that the workers can reach from any point of the run, exactly if no claim in it is early |
| ExecHandover.HandOverIsSafeIff | bs-mesh-cli.h:1023-1049 | the same for every run from the start, any number of workers, either kind of handler |
| ExecHandover.ReleasingHandlerClashes | bs-mesh-transfer.h:1356-1359 | a run with one worker in which the loop uses the connection that a handler runs on |
| ExecHandover.SafeIffPoolReleases | bs-mesh-support.h:1116-1124 | all runs are free of that exactly if the handler leaves the flags to the pool |
| Levenshtein.Compute | bs-config.h:554-571 | the two-row loop returns the least number of inserts, deletes and substitutions between the folded strings |
| Levenshtein.ShortestScript | bs-config.h:554-571 | the recurrence is reached by a script |
| Levenshtein.ScriptsAreNoShorter | bs-config.h:554-571 | and no script is shorter |
| Levenshtein.DistanceIsAMetric | bs-config.h:554-571 | zero exactly for strings equal without case, symmetric, triangle inequality |
| Glob.GlobMatch | bs-mesh-cli.h:3601-3634 | terminates and accepts exactly the language of the pattern |
| Glob.MatchAfterDirs | bs-mesh-cli.h:3605-3613 | the tail of a double star with a slash, every split it tries |
| Glob.MatchAfterAny | bs-mesh-cli.h:3614-3618 | the tail of a double star |
| Glob.MatchAfterName | bs-mesh-cli.h:3620-3626 | the tail of a star, up to a slash |
| Glob.LanguageByFirst | bs-mesh-cli.h:3601-3634 | a string is in the language exactly if the first token takes a prefix and the others the rest |
| Base64.B64Enc | bs-mesh-support.h:277-287 | the digits of the six-bit groups, without padding |
| Base64.Base64Encode | bs-mesh-cli.h:4437-4455 | the same digits with padding |
| Base64.PaddedLength | bs-mesh-cli.h:4437-4455 | four characters per started three bytes |
| Base64.DigitIs | bs-mesh-support.h:276 | the alphabet |
| Base64.RevIs | bs-osc52.h:152-190 | which characters count as digits, each with the value of its place in the alphabet |
| Base64.B64Dec | bs-mesh-support.h:289-295 | the loop with its wrapping 32-bit accumulator reads the digits' bits |
| Base64.DecodeSextets | bs-mesh-support.h:289-295 | reading the groups of a byte string gives the byte string |
| Base64.B64RoundTrip | bs-mesh-support.h:277-295 | b64dec undoes b64enc on every byte string |
| Base64.B64DecOfPadded | bs-mesh-support.h:289-295 | on padded text it adds a zero byte per padding character |
| Base64.B64DecUndoesPaddedIff | bs-mesh-support.h:289-295 | so it undoes base64_encode exactly for whole groups |
| Osc52.DecodeBody | bs-osc52.h:152-190 | the payload behind the semicolon, its accumulator masked to the pending bits |
| Osc52.BodyRoundTrip | bs-osc52.h:152-190 | undoes both coders under any selector |
| Osc52.FindOscEnd | bs-osc52.h:141-150 | the first BEL or ESC backslash at or after a position |
| Osc52.ScanOsc52 | bs-osc52.h:192-231 | the cleaned text and the last non-empty payload of the specified scan |
| Osc52.ScanStream | bs-osc52.h:192-231 | of ESC-free text interleaved with complete sequences, exactly the text and the last non-empty payload |
| Osc52.ScanUnterminated | bs-osc52.h:192-231 | without a terminator everything passes through |
| Osc52.ScanKeepsAllIff | bs-osc52.h:192-231 | a text passes unchanged exactly if no complete sequence starts anywhere in it |
| Osc52.ScanAgainFindsNothing | bs-osc52.h:192-231 | of ESC-free text with complete sequences a second scan finds nothing |
| Osc52.ScanAgainFindsMore | bs-osc52.h:192-231 | a sequence interrupted by another one is text to the first scan and a payload to the second |
| Osc52.ScanAgainIff | bs-osc52.h:192-231 | for every input, a second scan finds nothing exactly if at no place where a sequence was removed the kept text before and after completes another |
| Dht.XorLeadingZeros | bs-mesh-support.h:820-836 | the length of the common prefix in bits |
| Dht.Nearer | bs-mesh-support.h:893-903 | the byte-wise comparator orders by XOR distance read as a 256-bit big-endian number |
| Dht.DistanceIsInjective | bs-mesh-support.h:893-903 | different ids are at different distances from everywhere |
| Dht.LongerPrefixIsNearer | bs-mesh-support.h:820-836 | a strictly longer common prefix with the target is strictly nearer |
| Dht.HigherBucketIsNearer | bs-mesh-support.h:855-858 | peers in higher buckets are nearer to us |
| Dht.DhtNode.constructor | bs-mesh-support.h:845-861 | an empty valid table |
| Dht.DhtNode.BucketIndex | bs-mesh-support.h:855-858 | the bucket of the common prefix, the last one for our own id |
| Dht.DhtNode.AddPeer | bs-mesh-support.h:908-923 | a known id is renewed in place and keeps its name, a new one goes to the end and a full bucket loses its first; the table stays valid |
| Dht.DhtNode.SeedOne | bs-mesh-support.h:871-882 | a known id changes nothing, a new one goes to the end |
| Dht.DhtNode.Bootstrap | bs-mesh-support.h:869-883 | all seeds in turn; the table stays valid |
| Dht.DhtNode.FindClosest | bs-mesh-support.h:885-906 | the k nearest stored peers in strict order of distance, every other one farther |
| Dht.FlatIsDistinct | bs-mesh-support.h:885-892 | no id is stored twice, in one bucket or in two |
| Dht.SortingIsUnique | bs-mesh-support.h:893-903 | any sort gives the same list |
| Dht.AddPeerIsLocal | bs-mesh-support.h:908-923 | the peer is known afterwards, nobody else appears, and who disappears was the first of the full bucket it went to |
| Keys.LessIsTotal | bs-mesh-conn.h:777-786 | the string order is total on distinct strings |
| Keys.LessIsFirstDifference | bs-mesh-conn.h:777-786 | the first differing character decides, without one the length |
| Keys.LowerCharIs | bs-config.h:554-571 | exactly the 26 capitals change, to their small letters |
| Bytes.Be64RoundTrip | bs-codec.h:1214-1221 | eight bytes written are read back, whatever follows |

## Left out

- Sockets, TLS, poll, fork and exec: reads, writes and closes are parameters or steps.
- Sizes: `size_t` is unbounded here; 16, 32 and 64 bits are modelled where a value goes on the wire, wraps or is reduced.
- zstd and SHA-256: two function parameters with one assumption, that decompression undoes compression up to 4 MiB and that no result is empty; SHA-256 is not part of this model.
- Locks: each method of `RingBuffer` and `DhtNode` is one step. Interleaving is modelled where it matters, between the event loop and the workers.
- ExecHandover.Do: `enqueue`, `worker_loop`, `refresh_heartbeat_after_busy` and the hand-off branches are steps on values instead of methods, because their atomic stores interleave; the test of exec_busy and the exchange of exec_completed in the heartbeat check are one step. AutoUpgrade tasks, which carry no connection, the inline `daemon_file_send_wait` and the stale-exec watchdog are not modelled.
- Duplicates.Mesh.DetachSession: the call on the session table is recorded, its effect in the table is not modelled; whether the attach id is still known there decides between its two forms.
- Duplicates.Mesh.ResolveDuplicates: one reading of the clock for all removals; ssl_close and the closing of the received file are I/O.
- LinkRace.Do: an end may resolve any pair at any time, more than the scan does; forced closes, reconnects and promotion failures are not steps.
- Messages.Fields: `src_mtime_unix` and `direct` are one nine-byte field, as the decoder takes them; a double is its eight bytes.
- Messages.DecodePayload: the check of the CUA text length (bs-codec.h:1988-1996) is omitted, since a one-byte length cannot exceed it.
- Frames.Encode: straight-line byte copies, as a function; `Frames.Serialize` is the part with loops.
- Dht.Sort: `std::sort` is an insertion sort; `Dht.SortingIsUnique` shows that the choice does not show.
- WorkerStream.Session.Pump: the results of the reads are a parameter, and READY, PONG and ERROR frames carry nothing; a client that the worker drops ends its stream.
- Scrollback.RingBuffer.ReadSince: the capacity is any positive number; `& kMask` is the remainder by it.
- Path checks, configuration files, log redaction, version tags: they depend on the file system or have no crisp specification.
- Peer merging, gossip, join processing, supervision of services: easy members or files of I/O.
- Terminal drawing, the TUI, capture and input, panels: user interface.
