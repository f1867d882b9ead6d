/** The messages of bs-codec.h: how each is written, and what decoding that gives. */
module Messages {
  import opened Bytes
  import opened Sequences
  import opened Wire

  type Text = seq<Byte>
  type Int16 = v: int | -0x8000 <= v < 0x8000
  type Int32 = v: int | -0x8000_0000 <= v < 0x8000_0000
  type Id32 = s: seq<Byte> | |s| == 32 witness seq(32, _ => 0)
  /** A double, by its eight bytes in memory. */
  type Double = s: seq<Byte> | |s| == 8 witness seq(8, _ => 0)

  const NEWLINE: Byte := 10
  const MAX_PAYLOAD_U32: nat := 4 * 1024 * 1024
  const MAX_IMAGE: nat := 50 * 1024 * 1024
  const MAX_BATCH: nat := 512

  datatype SessionInfo = SessionInfo(name: Text, state: Text, uptime: U64)
  datatype PeerInfo = PeerInfo(name: Text, addr: Text, pubkey: Text, lastSeen: U64)
  datatype Append = Append(convId: Text, seqNo: U64, ts: U64, agentId: Text, role: Byte, body: Text)

  datatype Message =
    | Keystroke(data: Text)
    | Output(data: Text, renderMarkdown: bool)
    | Resize(cols: U16, rows: U16)
    | Clipboard(text: Text, hash: Text)
    | ClipboardEcho(hash: Text)
    | Attach(sessionName: Text, routing: Text, cols: U16, rows: U16, term: Text, command: Text,
             signalOnDetach: Text, clientInstanceId: U32, spectator: bool, reconnectOnly: bool)
    | Detach
    | SessionList(sessions: seq<SessionInfo>)
    | ServerInfo(hostname: Text, version: Text, load: Double, sessionsSummary: Text, hostStats: Text, latency: Text)
    | Ping
    | Pong
    | Scrollback(data: Text, totalLines: U32, chunkIndex: U32)
    | Signal(signal: Byte, process: Text)
    | ExitCode(code: Int32)
    | ScrollbackAck
    | SessionDied(exitCode: Int32, signalNum: Int32)
    | ImageData(format: Byte, name: Text, data: Text)
    | ImageFrame(format: Byte, delayMs: U32, loopCount: U32, data: Text)
    | ImageAck
    | Hello(nodeName: Text, version: Text, pubkey: Text, knownPeers: seq<PeerInfo>)
    | Gossip(peers: seq<PeerInfo>)
    | SessionSearch(sessionName: Text, routing: Text, cols: U16, rows: U16, term: Text)
    | SdpOffer(sdp: Text, peerName: Text)
    | SdpAnswer(sdp: Text, peerName: Text)
    | DhtFindNode(targetId: Id32, senderName: Text)
    | DhtFindValue(key: Id32, senderName: Text)
    | FileMeta(filename: Text, filesize: U64, checksum: Text, totalChunks: U32, chunkSize: U32, destPath: Text,
               srcMtime: U64, direct: Byte)
    | FileChunk(chunkIndex: U32, totalChunks: U32, data: Text)
    | FileAck(chunkIndex: U32, nextRequested: U32, error: bool, errorMsg: Text)
    | FileRequest(path: Text, mode: Byte)
    | AttachAck(attachId: U32, sessionName: Text, cols: U16, rows: U16)
    | OutputGap(droppedBytes: U64)
    | ConversationAppend(append: Append)
    | ConversationQuery(convId: Text, sinceSeq: U64)
    | ConversationBatch(convId: Text, messages: seq<Append>)
    | CuaRequest(requestId: U32, action: Byte, x: Int16, y: Int16, button: Byte, hidKey: U32, modifiers: Byte, text: Text)
    | CuaResponse(requestId: U32, status: Byte, errorText: Text, screenW: U32, screenH: U32, format: Byte, data: Text)
    | JoinRequest(token: Text, nodeName: Text, listenAddr: Text)
    | JoinReply(ok: bool, nodeName: Text, seedsCsv: Text, hostPubkey: Text, hostAddr: Text, peerPubkeys: Text,
                errorText: Text)
    | CuaVideoCapture(requestId: U32, fps: Byte, durationSec: U16, quality: Byte, maxWidth: U16)
    | CuaVideoCaptureResult(requestId: U32, status: Byte, errorText: Text, filePath: Text, durationSec: U16,
                            width: U16, height: U16, format: Byte)
    | DirectoryEnroll(name: Text, pubkey: Text, addr: Text, issuer: Text, issuedAt: U64, signature: Text)

  /** index_to_type. */
  function TypeByte(m: Message): Byte {
    match m
    case Keystroke(_) => 0x01
    case Output(_, _) => 0x02
    case Resize(_, _) => 0x03
    case Clipboard(_, _) => 0x04
    case ClipboardEcho(_) => 0x11
    case Attach(_, _, _, _, _, _, _, _, _, _) => 0x06
    case Detach => 0x07
    case SessionList(_) => 0x08
    case ServerInfo(_, _, _, _, _, _) => 0x09
    case Ping => 0x0A
    case Pong => 0x0B
    case Scrollback(_, _, _) => 0x0C
    case Signal(_, _) => 0x0D
    case ExitCode(_) => 0x0E
    case ScrollbackAck => 0x0F
    case SessionDied(_, _) => 0x10
    case ImageData(_, _, _) => 0x12
    case ImageFrame(_, _, _, _) => 0x13
    case ImageAck => 0x14
    case Hello(_, _, _, _) => 0x15
    case Gossip(_) => 0x16
    case SessionSearch(_, _, _, _, _) => 0x17
    case SdpOffer(_, _) => 0x18
    case SdpAnswer(_, _) => 0x19
    case DhtFindNode(_, _) => 0x1A
    case DhtFindValue(_, _) => 0x1B
    case FileMeta(_, _, _, _, _, _, _, _) => 0x1C
    case FileChunk(_, _, _) => 0x1D
    case FileAck(_, _, _, _) => 0x1E
    case FileRequest(_, _) => 0x1F
    case AttachAck(_, _, _, _) => 0x21
    case OutputGap(_) => 0x22
    case ConversationAppend(_) => 0x23
    case ConversationQuery(_, _) => 0x24
    case ConversationBatch(_, _) => 0x25
    case CuaRequest(_, _, _, _, _, _, _, _) => 0x26
    case CuaResponse(_, _, _, _, _, _, _) => 0x27
    case JoinRequest(_, _, _) => 0x28
    case JoinReply(_, _, _, _, _, _, _) => 0x29
    case CuaVideoCapture(_, _, _, _, _) => 0x2A
    case CuaVideoCaptureResult(_, _, _, _, _, _, _, _) => 0x2B
    case DirectoryEnroll(_, _, _, _, _, _) => 0x2C
  }

  // ── Writing ───────────────────────────────────────────────────────────────────

  function Flag(b: bool): Field { U8(if b then 1 else 0) }

  /** The casts to uint16_t and uint32_t, and back. */
  function Wrap16(v: Int16): U16 { v % 0x1_0000 }
  function Signed16(w: U16): Int16 { if w < 0x8000 then w else w - 0x1_0000 }
  function Wrap32(v: Int32): U32 { v % 0x1_0000_0000 }
  function Signed32(d: U32): Int32 { if d < 0x8000_0000 then d else d - 0x1_0000_0000 }

  function AppendFields(a: Append): seq<Field> {
    [Str8(a.convId), U64(a.seqNo), U64(a.ts), Str8(a.agentId), U8(a.role), Str16(a.body)]
  }

  function SessionFields(s: SessionInfo): seq<Field> {
    [Str8(s.name), Str8(s.state), U32(if s.uptime < 0x1_0000_0000 then s.uptime else 0xFFFF_FFFF)]
  }

  function PeerFields(p: PeerInfo): seq<Field> {
    [Str8(p.name), Str8(p.addr), Str8(p.pubkey), U32(p.lastSeen % 0x1_0000_0000)]
  }

  /** dest_path is written if it or what comes after it is set; src_mtime_unix and direct, nine bytes that
      the decoder takes or leaves together, if one of them is. */
  function FileMetaTail(destPath: Text, srcMtime: U64, direct: Byte): seq<Field> {
    if srcMtime != 0 || direct != 0 then [Str16(destPath), Raw(Be64(srcMtime) + [direct])]
    else if destPath != [] then [Str16(destPath)]
    else []
  }

  /** What serialize_msg writes, but for the items of lists. */
  function Fields(m: Message): seq<Field> {
    match m
    case Keystroke(data) => [Raw(data)]
    case Output(data, renderMarkdown) => [Flag(renderMarkdown), Raw(data)]
    case Resize(cols, rows) => [U16(cols), U16(rows)]
    case Clipboard(text, hash) => [Raw(hash), U8(NEWLINE), Raw(text)]
    case ClipboardEcho(hash) => [Raw(hash)]
    case Attach(sessionName, routing, cols, rows, term, command, signalOnDetach, id, spectator, reconnectOnly) =>
      [U16(cols), U16(rows), Str8(term), Str8(sessionName), Str8(routing), Str16(command), Str16(signalOnDetach),
       U32(id), Flag(spectator), Flag(reconnectOnly)]
    case Detach => []
    case SessionList(_) => []
    case ServerInfo(hostname, version, load, sessionsSummary, hostStats, latency) =>
      [Str16(hostname), Str16(version), Raw(load), Str16(sessionsSummary)]
      + (if hostStats != [] then [Str16(hostStats)] else []) + (if latency != [] then [Str16(latency)] else [])
    case Ping => []
    case Pong => []
    case Scrollback(data, totalLines, chunkIndex) => [U32(totalLines), U32(chunkIndex), Raw(data)]
    case Signal(signal, process) => [U8(signal), Str16(process)]
    case ExitCode(code) => [U32(Wrap32(code))]
    case ScrollbackAck => []
    case SessionDied(exitCode, signalNum) => [U32(Wrap32(exitCode)), U32(Wrap32(signalNum))]
    case ImageData(format, name, data) => [U8(format), Str16(name), Blob(data)]
    case ImageFrame(format, delayMs, loopCount, data) => [U8(format), U32(delayMs), U32(loopCount), Blob(data)]
    case ImageAck => []
    case Hello(nodeName, version, pubkey, _) => [Str8(nodeName), Str8(version), Str8(pubkey)]
    case Gossip(_) => []
    case SessionSearch(sessionName, routing, cols, rows, term) =>
      [Str8(sessionName), Str8(routing), U16(cols), U16(rows), Str8(term)]
    case SdpOffer(sdp, peerName) => [Str8(peerName), Str16(sdp)]
    case SdpAnswer(sdp, peerName) => [Str8(peerName), Str16(sdp)]
    case DhtFindNode(targetId, senderName) => [Raw(targetId), Str8(senderName)]
    case DhtFindValue(key, senderName) => [Raw(key), Str8(senderName)]
    case FileMeta(filename, filesize, checksum, totalChunks, chunkSize, destPath, srcMtime, direct) =>
      [Str8(filename), U32(filesize / 0x1_0000_0000), U32(filesize % 0x1_0000_0000), Str8(checksum), U32(totalChunks),
       U32(chunkSize)] + FileMetaTail(destPath, srcMtime, direct)
    case FileChunk(chunkIndex, totalChunks, data) => [U32(chunkIndex), U32(totalChunks), Blob(data)]
    case FileAck(chunkIndex, nextRequested, error, errorMsg) =>
      [U32(chunkIndex), U32(nextRequested), Flag(error), Str16(errorMsg)]
    case FileRequest(path, mode) => [Str16(path)] + (if mode != 0 then [U8(mode)] else [])
    case AttachAck(attachId, sessionName, cols, rows) => [U32(attachId), Str8(sessionName), U16(cols), U16(rows)]
    case OutputGap(droppedBytes) => [U64(droppedBytes)]
    case ConversationAppend(a) => AppendFields(a)
    case ConversationQuery(convId, sinceSeq) => [Str8(convId), U64(sinceSeq)]
    case ConversationBatch(convId, _) => [Str8(convId)]
    case CuaRequest(requestId, action, x, y, button, hidKey, modifiers, text) =>
      [U32(requestId), U8(action), U16(Wrap16(x)), U16(Wrap16(y)), U8(button), U32(hidKey), U8(modifiers), Str8(text)]
    case CuaResponse(requestId, status, errorText, screenW, screenH, format, data) =>
      [U32(requestId), U8(status), Str8(errorText), U32(screenW), U32(screenH), U8(format), Blob(data)]
    case JoinRequest(token, nodeName, listenAddr) => [Str8(token), Str8(nodeName), Str8(listenAddr)]
    case JoinReply(ok, nodeName, seedsCsv, hostPubkey, hostAddr, peerPubkeys, errorText) =>
      [Flag(ok)] + (if ok then [Str8(nodeName), Str16(seedsCsv), Str8(hostPubkey), Str8(hostAddr), Str16(peerPubkeys)]
                    else [Str8(errorText)])
    case CuaVideoCapture(requestId, fps, durationSec, quality, maxWidth) =>
      [U32(requestId), U8(fps), U16(durationSec), U8(quality), U16(maxWidth)]
    case CuaVideoCaptureResult(requestId, status, errorText, filePath, durationSec, width, height, format) =>
      [U32(requestId), U8(status), Str8(errorText), Str8(filePath), U16(durationSec), U16(width), U16(height), U8(format)]
    case DirectoryEnroll(name, pubkey, addr, issuer, issuedAt, signature) =>
      [Str8(name), Str8(pubkey), Str8(addr), Str8(issuer), U64(issuedAt), Raw(signature)]
  }

  /** The items of the messages that are lists. */
  function Items(m: Message): seq<seq<Field>> {
    match m
    case SessionList(sessions) => seq(|sessions|, i requires 0 <= i < |sessions| => SessionFields(sessions[i]))
    case Hello(_, _, _, peers) => seq(|peers|, i requires 0 <= i < |peers| => PeerFields(peers[i]))
    case Gossip(peers) => seq(|peers|, i requires 0 <= i < |peers| => PeerFields(peers[i]))
    case ConversationBatch(_, messages) => seq(|messages|, i requires 0 <= i < |messages| => AppendFields(messages[i]))
    case _ => []
  }

  /** The payloads that serialize_msg refuses by their size. */
  predicate Oversize(m: Message) {
    match m
    case ImageData(_, _, data) => |data| > MAX_IMAGE
    case ImageFrame(_, _, _, data) => |data| > MAX_IMAGE
    case FileChunk(_, _, data) => |data| > MAX_PAYLOAD_U32
    case _ => false
  }

  /** serialize_msg; None where it throws. */
  function Payload(m: Message): Option<seq<Byte>> {
    if Oversize(m) then None
    else
      var head :- EncAll(Fields(m));
      var items :- EncItems(Items(m));
      Some(head + items)
  }

  // ── What can be written ───────────────────────────────────────────────────────

  predicate Short(t: Text) { |t| <= 255 }

  predicate Long(t: Text) { |t| <= 65535 }

  /** The strings of a message fit their length fields. */
  predicate TextsFit(m: Message) {
    match m
    case Attach(sessionName, routing, _, _, term, command, signalOnDetach, _, _, _) =>
      Short(sessionName) && Short(routing) && Short(term) && Long(command) && Long(signalOnDetach)
    case SessionList(sessions) => forall i :: 0 <= i < |sessions| ==> Short(sessions[i].name) && Short(sessions[i].state)
    case ServerInfo(hostname, version, _, sessionsSummary, hostStats, latency) =>
      Long(hostname) && Long(version) && Long(sessionsSummary) && Long(hostStats) && Long(latency)
    case Signal(_, process) => Long(process)
    case ImageData(_, name, _) => Long(name)
    case Hello(nodeName, version, pubkey, peers) => Short(nodeName) && Short(version) && Short(pubkey) && PeersFit(peers)
    case Gossip(peers) => PeersFit(peers)
    case SessionSearch(sessionName, routing, _, _, term) => Short(sessionName) && Short(routing) && Short(term)
    case SdpOffer(sdp, peerName) => Long(sdp) && Short(peerName)
    case SdpAnswer(sdp, peerName) => Long(sdp) && Short(peerName)
    case DhtFindNode(_, senderName) => Short(senderName)
    case DhtFindValue(_, senderName) => Short(senderName)
    case FileMeta(filename, _, checksum, _, _, destPath, _, _) => Short(filename) && Short(checksum) && Long(destPath)
    case FileAck(_, _, _, errorMsg) => Long(errorMsg)
    case FileRequest(path, _) => Long(path)
    case AttachAck(_, sessionName, _, _) => Short(sessionName)
    case ConversationAppend(a) => Short(a.convId) && Short(a.agentId) && Long(a.body)
    case ConversationQuery(convId, _) => Short(convId)
    case ConversationBatch(convId, messages) => Short(convId) && AppendsFit(messages)
    case CuaRequest(_, _, _, _, _, _, _, text) => Short(text)
    case CuaResponse(_, _, errorText, _, _, _, _) => Short(errorText)
    case JoinRequest(token, nodeName, listenAddr) => Short(token) && Short(nodeName) && Short(listenAddr)
    case JoinReply(ok, nodeName, seedsCsv, hostPubkey, hostAddr, peerPubkeys, errorText) =>
      if ok then Short(nodeName) && Long(seedsCsv) && Short(hostPubkey) && Short(hostAddr) && Long(peerPubkeys)
      else Short(errorText)
    case CuaVideoCaptureResult(_, _, errorText, filePath, _, _, _, _) => Short(errorText) && Short(filePath)
    case DirectoryEnroll(name, pubkey, addr, issuer, _, _) => Short(name) && Short(pubkey) && Short(addr) && Short(issuer)
    case _ => true
  }

  predicate PeersFit(peers: seq<PeerInfo>) {
    forall i :: 0 <= i < |peers| ==> Short(peers[i].name) && Short(peers[i].addr) && Short(peers[i].pubkey)
  }

  predicate AppendsFit(messages: seq<Append>) {
    forall i :: 0 <= i < |messages| ==> Short(messages[i].convId) && Short(messages[i].agentId) && Long(messages[i].body)
  }

  /** What fits: strings their length fields, data its cap. */
  predicate Writable(m: Message) {
    && TextsFit(m)
    && (m.ImageData? || m.ImageFrame? ==> |m.data| <= 52428800)
    && (m.FileChunk? ==> |m.data| <= 4194304)
  }

  predicate HasList(m: Message) { m.SessionList? || m.Hello? || m.Gossip? || m.ConversationBatch? }

  predicate FileTexts(m: Message) { m.FileAck? || m.FileRequest? || m.ImageData? || m.Signal? }

  predicate LookupTexts(m: Message) { m.SdpOffer? || m.SdpAnswer? || m.DhtFindNode? || m.DhtFindValue? }

  predicate JoinTexts(m: Message) { m.JoinRequest? || m.JoinReply? || m.DirectoryEnroll? }

  predicate SessionTexts(m: Message) { m.Attach? || m.SessionSearch? || m.AttachAck? }

  predicate ConversationTexts(m: Message) { m.ConversationAppend? || m.ConversationQuery? }

  predicate CuaTexts(m: Message) { m.CuaRequest? || m.CuaResponse? || m.CuaVideoCaptureResult? }

  lemma FileMetaTextsFit(m: Message)
    requires m.FileMeta?
    ensures AllFieldsFit(Fields(m)) <==> TextsFit(m)
  {
    var fs := Fields(m);
    assert fs[0] == Str8(m.filename) && fs[3] == Str8(m.checksum) && (m.destPath != [] ==> fs[6] == Str16(m.destPath));
  }

  lemma FileTextsFit(m: Message)
    requires FileTexts(m)
    ensures AllFieldsFit(Fields(m)) <==> TextsFit(m)
  {
    var fs := Fields(m);
    match m {
      case FileAck(_, _, _, errorMsg) => assert fs[3] == Str16(errorMsg);
      case FileRequest(path, _) => assert fs[0] == Str16(path);
      case ImageData(_, name, _) => assert fs[1] == Str16(name);
      case Signal(_, process) => assert fs[1] == Str16(process);
    }
  }

  lemma ServerTextsFit(m: Message)
    requires m.ServerInfo?
    ensures AllFieldsFit(Fields(m)) <==> TextsFit(m)
  {
    var (fs, k) := (Fields(m), if m.hostStats != [] then 5 else 4);
    assert fs[0] == Str16(m.hostname) && fs[1] == Str16(m.version) && fs[3] == Str16(m.sessionsSummary);
    assert m.hostStats != [] ==> fs[4] == Str16(m.hostStats);
    assert m.latency != [] ==> fs[k] == Str16(m.latency);
  }

  lemma LookupTextsFit(m: Message)
    requires LookupTexts(m)
    ensures AllFieldsFit(Fields(m)) <==> TextsFit(m)
  {
    var fs := Fields(m);
    match m {
      case SdpOffer(sdp, peerName) => assert fs[0] == Str8(peerName) && fs[1] == Str16(sdp);
      case SdpAnswer(sdp, peerName) => assert fs[0] == Str8(peerName) && fs[1] == Str16(sdp);
      case DhtFindNode(_, senderName) => assert fs[1] == Str8(senderName);
      case DhtFindValue(_, senderName) => assert fs[1] == Str8(senderName);
    }
  }

  lemma JoinReplyTextsFit(m: Message)
    requires m.JoinReply?
    ensures AllFieldsFit(Fields(m)) <==> TextsFit(m)
  {
    var fs := Fields(m);
    if m.ok {
      assert fs[1] == Str8(m.nodeName) && fs[2] == Str16(m.seedsCsv) && fs[3] == Str8(m.hostPubkey);
      assert fs[4] == Str8(m.hostAddr) && fs[5] == Str16(m.peerPubkeys);
    } else {
      assert fs[1] == Str8(m.errorText);
    }
  }

  lemma JoinTextsFit(m: Message)
    requires JoinTexts(m) && !m.JoinReply?
    ensures AllFieldsFit(Fields(m)) <==> TextsFit(m)
  {
    var fs := Fields(m);
    match m {
      case JoinRequest(token, nodeName, listenAddr) =>
        assert fs[0] == Str8(token) && fs[1] == Str8(nodeName) && fs[2] == Str8(listenAddr);
      case DirectoryEnroll(name, pubkey, addr, issuer, _, _) =>
        assert fs[0] == Str8(name) && fs[1] == Str8(pubkey) && fs[2] == Str8(addr) && fs[3] == Str8(issuer);
    }
  }

  lemma SessionTextsFit(m: Message)
    requires SessionTexts(m)
    ensures AllFieldsFit(Fields(m)) <==> TextsFit(m)
  {
    var fs := Fields(m);
    match m {
      case Attach(sessionName, routing, _, _, term, command, signalOnDetach, _, _, _) =>
        assert fs[2] == Str8(term) && fs[3] == Str8(sessionName) && fs[4] == Str8(routing);
        assert fs[5] == Str16(command) && fs[6] == Str16(signalOnDetach);
      case SessionSearch(sessionName, routing, _, _, term) =>
        assert fs[0] == Str8(sessionName) && fs[1] == Str8(routing) && fs[4] == Str8(term);
      case AttachAck(_, sessionName, _, _) => assert fs[1] == Str8(sessionName);
    }
  }

  lemma ConversationTextsFit(m: Message)
    requires ConversationTexts(m)
    ensures AllFieldsFit(Fields(m)) <==> TextsFit(m)
  {
    var fs := Fields(m);
    match m {
      case ConversationAppend(a) => AppendTextsFit(a);
      case ConversationQuery(convId, _) => assert fs[0] == Str8(convId);
    }
  }

  lemma CuaTextsFit(m: Message)
    requires CuaTexts(m)
    ensures AllFieldsFit(Fields(m)) <==> TextsFit(m)
  {
    var fs := Fields(m);
    match m {
      case CuaRequest(_, _, _, _, _, _, _, text) => assert fs[7] == Str8(text);
      case CuaResponse(_, _, errorText, _, _, _, _) => assert fs[2] == Str8(errorText);
      case CuaVideoCaptureResult(_, _, errorText, filePath, _, _, _, _) =>
        assert fs[2] == Str8(errorText) && fs[3] == Str8(filePath);
    }
  }

  lemma AppendTextsFit(a: Append)
    ensures AllFieldsFit(AppendFields(a)) <==> Short(a.convId) && Short(a.agentId) && Long(a.body)
  {
    var fs := AppendFields(a);
    assert fs[0] == Str8(a.convId) && fs[3] == Str8(a.agentId) && fs[5] == Str16(a.body);
  }

  lemma SessionInfoTextsFit(s: SessionInfo)
    ensures AllFieldsFit(SessionFields(s)) <==> Short(s.name) && Short(s.state)
  {
    var fs := SessionFields(s);
    assert fs[0] == Str8(s.name) && fs[1] == Str8(s.state);
  }

  lemma PeerInfoTextsFit(p: PeerInfo)
    ensures AllFieldsFit(PeerFields(p)) <==> Short(p.name) && Short(p.addr) && Short(p.pubkey)
  {
    var fs := PeerFields(p);
    assert fs[0] == Str8(p.name) && fs[1] == Str8(p.addr) && fs[2] == Str8(p.pubkey);
  }

  /** All other messages have no string with a length field. */
  lemma NoTexts(m: Message)
    requires !m.FileMeta? && !m.ServerInfo? && !FileTexts(m) && !LookupTexts(m) && !JoinTexts(m) && !SessionTexts(m)
    requires !ConversationTexts(m) && !CuaTexts(m) && !HasList(m)
    ensures AllFieldsFit(Fields(m)) && TextsFit(m)
  {
  }

  lemma NoItemsBesideLists(m: Message)
    requires !HasList(m)
    ensures Items(m) == []
  {
  }

  lemma FieldsFitIff(m: Message)
    requires !HasList(m)
    ensures AllFieldsFit(Fields(m)) <==> TextsFit(m)
  {
    hide AllFieldsFit, Fields, TextsFit;
    if m.FileMeta? { FileMetaTextsFit(m); }
    else if m.ServerInfo? { ServerTextsFit(m); }
    else if FileTexts(m) { FileTextsFit(m); }
    else if LookupTexts(m) { LookupTextsFit(m); }
    else if m.JoinReply? { JoinReplyTextsFit(m); }
    else if JoinTexts(m) { JoinTextsFit(m); }
    else if SessionTexts(m) { SessionTextsFit(m); }
    else if ConversationTexts(m) { ConversationTextsFit(m); }
    else if CuaTexts(m) { CuaTextsFit(m); }
    else { NoTexts(m); }
  }

  /** Items are written if each of them is. */
  lemma {:induction false} EncItemsIff(items: seq<seq<Field>>)
    ensures EncItems(items).Some? <==> forall i :: 0 <= i < |items| ==> AllFieldsFit(items[i])
  {
    hide EncAll, AllFieldsFit;
    if items != [] {
      EncAllIff(items[0]);
      EncItemsIff(items[1..]);
      assert forall i :: 0 < i < |items| ==> items[i] == items[1..][i - 1];
    }
  }

  lemma ItemsFitIff(m: Message)
    requires HasList(m)
    ensures (forall i :: 0 <= i < |Items(m)| ==> AllFieldsFit(Items(m)[i]))
       <==> match m
            case SessionList(sessions) => forall i :: 0 <= i < |sessions| ==> Short(sessions[i].name) && Short(sessions[i].state)
            case Hello(_, _, _, peers) => PeersFit(peers)
            case Gossip(peers) => PeersFit(peers)
            case ConversationBatch(_, messages) => AppendsFit(messages)
            case _ => true
  {
    var items := Items(m);
    hide AllFieldsFit, Short, Long, SessionFields, PeerFields, AppendFields;
    match m {
      case SessionList(sessions) =>
        forall i | 0 <= i < |sessions| ensures AllFieldsFit(items[i]) <==> Short(sessions[i].name) && Short(sessions[i].state) {
          SessionInfoTextsFit(sessions[i]);
        }
      case Hello(_, _, _, peers) =>
        forall i | 0 <= i < |peers|
          ensures AllFieldsFit(items[i]) <==> Short(peers[i].name) && Short(peers[i].addr) && Short(peers[i].pubkey)
        {
          PeerInfoTextsFit(peers[i]);
        }
      case Gossip(peers) =>
        forall i | 0 <= i < |peers|
          ensures AllFieldsFit(items[i]) <==> Short(peers[i].name) && Short(peers[i].addr) && Short(peers[i].pubkey)
        {
          PeerInfoTextsFit(peers[i]);
        }
      case ConversationBatch(_, messages) =>
        forall i | 0 <= i < |messages|
          ensures AllFieldsFit(items[i]) <==> Short(messages[i].convId) && Short(messages[i].agentId) && Long(messages[i].body)
        {
          AppendTextsFit(messages[i]);
        }
    }
  }

  lemma HeadsFitIff(m: Message)
    requires HasList(m)
    ensures m.SessionList? || m.Gossip? ==> AllFieldsFit(Fields(m))
    ensures m.Hello? ==> (AllFieldsFit(Fields(m)) <==> Short(m.nodeName) && Short(m.version) && Short(m.pubkey))
    ensures m.ConversationBatch? ==> (AllFieldsFit(Fields(m)) <==> Short(m.convId))
  {
    var fs := Fields(m);
    assert m.Hello? ==> fs[0] == Str8(m.nodeName) && fs[1] == Str8(m.version) && fs[2] == Str8(m.pubkey);
    assert m.ConversationBatch? ==> fs[0] == Str8(m.convId);
  }

  lemma ListsFitIff(m: Message)
    requires HasList(m)
    ensures AllFieldsFit(Fields(m)) && (forall i :: 0 <= i < |Items(m)| ==> AllFieldsFit(Items(m)[i])) <==> TextsFit(m)
  {
    hide AllFieldsFit, Fields, Items, Short, Long, PeersFit, AppendsFit;
    HeadsFitIff(m);
    ItemsFitIff(m);
  }

  lemma PayloadIsSome(m: Message)
    ensures Payload(m).Some? <==> !Oversize(m) && EncAll(Fields(m)).Some? && EncItems(Items(m)).Some?
    ensures EncItems([]) == Some([])
  {
    hide Oversize, Fields, Items, EncAll;
  }

  lemma OversizeIs(m: Message)
    ensures Oversize(m) <==> !((m.ImageData? || m.ImageFrame? ==> |m.data| <= 52428800) && (m.FileChunk? ==> |m.data| <= 4194304))
  {
  }

  /** serialize_msg throws exactly for strings that are too long for their length fields and data above its
      cap. */
  lemma WrittenIff(m: Message)
    ensures Payload(m).Some? <==> Writable(m)
  {
    OversizeIs(m);
    PayloadIsSome(m);
    EncAllIff(Fields(m));
    EncItemsIff(Items(m));
    hide Payload, Fields, Items, EncAll, EncItems, Oversize, TextsFit, AllFieldsFit;
    if HasList(m) {
      ListsFitIff(m);
    } else {
      NoItemsBesideLists(m);
      FieldsFitIff(m);
    }
  }

  // ── Reading ───────────────────────────────────────────────────────────────────

  const NO_TEXT16: Kind := KOpt(2, KStr16, Str16([]))
  const NO_TEXT8: Kind := KOpt(1, KStr8, Str8([]))
  const NO_FLAG: Kind := KOpt(1, KU8, U8(0))
  const NO_U32: Kind := KOpt(4, KU32, U32(0))
  const APPEND: seq<Kind> := [KStr8, KU64, KU64, KStr8, KU8, KStr16]
  const PEER: seq<Kind> := [KStr8, KStr8, KStr8, KU32]
  const SESSION: seq<Kind> := [KStr8, KStr8, KU32]

  /** The decoder's calls for the messages that it reads field by field. */
  function Shape(t: int): Option<seq<Kind>> {
    match t
    case 0x01 => Some([KRest])
    case 0x02 => Some([KU8, KRest])
    case 0x03 => Some([KU16, KU16])
    case 0x11 => Some([KRest])
    case 0x06 => Some([KU16, KU16, KStr8, KStr8, KStr8, NO_TEXT16, NO_TEXT16, NO_U32, NO_FLAG, NO_FLAG])
    case 0x07 => Some([])
    case 0x0A => Some([])
    case 0x0B => Some([])
    case 0x0C => Some([KU32, KU32, KRest])
    case 0x0D => Some([KU8, KStr16])
    case 0x0E => Some([KU32])
    case 0x0F => Some([])
    case 0x10 => Some([KU32, KU32])
    case 0x12 => Some([KU8, KStr16, KBlob(MAX_IMAGE)])
    case 0x13 => Some([KU8, KU32, KU32, KBlob(MAX_IMAGE)])
    case 0x14 => Some([])
    case 0x17 => Some([KStr8, KStr8, KU16, KU16, KStr8])
    case 0x18 => Some([KStr8, KStr16])
    case 0x19 => Some([KStr8, KStr16])
    case 0x1A => Some([KRaw(32), KStr8])
    case 0x1B => Some([KRaw(32), KStr8])
    case 0x1C => Some([KStr8, KU32, KU32, KStr8, KU32, NO_U32, NO_TEXT16, KOpt(9, KRaw(9), Raw([0, 0, 0, 0, 0, 0, 0, 0, 0]))])
    case 0x1D => Some([KU32, KU32, KBlob(MAX_PAYLOAD_U32)])
    case 0x1E => Some([KU32, KU32, KU8, KStr16])
    case 0x1F => Some([KStr16, NO_FLAG])
    case 0x21 => Some([KU32, KStr8, KU16, KU16])
    case 0x22 => Some([KU64])
    case 0x23 => Some(APPEND)
    case 0x24 => Some([KStr8, KU64])
    case 0x26 => Some([KU32, KU8, KU16, KU16, KU8, KU32, KU8, KStr8])
    case 0x27 => Some([KU32, KU8, KStr8, KU32, KU32, KU8, KBlob(MAX_IMAGE)])
    case 0x28 => Some([KStr8, NO_TEXT8, NO_TEXT8])
    case 0x2A => Some([KU32, KU8, KU16, KU8, KU16])
    case 0x2B => Some([KU32, KU8, KStr8, KStr8, KU16, KU16, KU16, KU8])
    case 0x2C => Some([KStr8, KStr8, KStr8, KStr8, KU64, KRest])
    case _ => None
  }

  /** What a field holds; the other cases do not arise. */
  function B(f: Field): Byte { if f.U8? then f.b else 0 }
  function W(f: Field): U16 { if f.U16? then f.w else 0 }
  function D(f: Field): U32 { if f.U32? then f.d else 0 }
  function Q(f: Field): U64 { if f.U64? then f.q else 0 }
  function S(f: Field): Text { if f.Str8? || f.Str16? || f.Blob? || f.Raw? then f.s else [] }
  function Id(f: Field): Id32 { if |S(f)| == 32 then S(f) else seq(32, _ => 0) }
  function Bool(f: Field): bool { B(f) != 0 }

  function ToAppend(fs: seq<Field>): Append
    requires |fs| == 6
  {
    Append(S(fs[0]), Q(fs[1]), Q(fs[2]), S(fs[3]), B(fs[4]), S(fs[5]))
  }

  /** The message that the fields make. */
  function Build(t: int, fs: seq<Field>): Message
    requires Shape(t).Some? && |fs| == |Shape(t).value|
  {
    match t
    case 0x01 => Keystroke(S(fs[0]))
    case 0x02 => Output(S(fs[1]), Bool(fs[0]))
    case 0x03 => Resize(W(fs[0]), W(fs[1]))
    case 0x11 => ClipboardEcho(S(fs[0]))
    case 0x06 => Attach(S(fs[3]), S(fs[4]), W(fs[0]), W(fs[1]), S(fs[2]), S(fs[5]), S(fs[6]), D(fs[7]), Bool(fs[8]), Bool(fs[9]))
    case 0x07 => Detach
    case 0x0A => Ping
    case 0x0B => Pong
    case 0x0C => Scrollback(S(fs[2]), D(fs[0]), D(fs[1]))
    case 0x0D => Signal(B(fs[0]), S(fs[1]))
    case 0x0E => ExitCode(Signed32(D(fs[0])))
    case 0x0F => ScrollbackAck
    case 0x10 => SessionDied(Signed32(D(fs[0])), Signed32(D(fs[1])))
    case 0x12 => ImageData(B(fs[0]), S(fs[1]), S(fs[2]))
    case 0x13 => ImageFrame(B(fs[0]), D(fs[1]), D(fs[2]), S(fs[3]))
    case 0x14 => ImageAck
    case 0x17 => SessionSearch(S(fs[0]), S(fs[1]), W(fs[2]), W(fs[3]), S(fs[4]))
    case 0x18 => SdpOffer(S(fs[1]), S(fs[0]))
    case 0x19 => SdpAnswer(S(fs[1]), S(fs[0]))
    case 0x1A => DhtFindNode(Id(fs[0]), S(fs[1]))
    case 0x1B => DhtFindValue(Id(fs[0]), S(fs[1]))
    case 0x1C =>
      var ext := S(fs[7]);
      FileMeta(S(fs[0]), D(fs[1]) * 0x1_0000_0000 + D(fs[2]), S(fs[3]), D(fs[4]), D(fs[5]), S(fs[6]),
               if |ext| == 9 then ReadU64(ext) else 0, if |ext| == 9 then ext[8] else 0)
    case 0x1D => FileChunk(D(fs[0]), D(fs[1]), S(fs[2]))
    case 0x1E => FileAck(D(fs[0]), D(fs[1]), Bool(fs[2]), S(fs[3]))
    case 0x1F => FileRequest(S(fs[0]), B(fs[1]))
    case 0x21 => AttachAck(D(fs[0]), S(fs[1]), W(fs[2]), W(fs[3]))
    case 0x22 => OutputGap(Q(fs[0]))
    case 0x23 => ConversationAppend(ToAppend(fs))
    case 0x24 => ConversationQuery(S(fs[0]), Q(fs[1]))
    case 0x26 => CuaRequest(D(fs[0]), B(fs[1]), Signed16(W(fs[2])), Signed16(W(fs[3])), B(fs[4]), D(fs[5]), B(fs[6]), S(fs[7]))
    case 0x27 => CuaResponse(D(fs[0]), B(fs[1]), S(fs[2]), D(fs[3]), D(fs[4]), B(fs[5]), S(fs[6]))
    case 0x28 => JoinRequest(S(fs[0]), S(fs[1]), S(fs[2]))
    case 0x2A => CuaVideoCapture(D(fs[0]), B(fs[1]), W(fs[2]), B(fs[3]), W(fs[4]))
    case 0x2B => CuaVideoCaptureResult(D(fs[0]), B(fs[1]), S(fs[2]), S(fs[3]), W(fs[4]), W(fs[5]), W(fs[6]), B(fs[7]))
    case 0x2C => DirectoryEnroll(S(fs[0]), S(fs[1]), S(fs[2]), S(fs[3]), Q(fs[4]), S(fs[5]))
  }

  function ToSession(fs: seq<Field>): SessionInfo
    requires |fs| == 3
  {
    SessionInfo(S(fs[0]), S(fs[1]), D(fs[2]))
  }

  function ToPeer(fs: seq<Field>): PeerInfo
    requires |fs| == 4
  {
    PeerInfo(S(fs[0]), S(fs[1]), S(fs[2]), D(fs[3]))
  }

  function ToSessions(items: seq<seq<Field>>): (r: seq<SessionInfo>)
    requires forall i :: 0 <= i < |items| ==> |items[i]| == 3
    ensures |r| == |items| && forall i :: 0 <= i < |items| ==> r[i] == ToSession(items[i])
  {
    seq(|items|, i requires 0 <= i < |items| => ToSession(items[i]))
  }

  function ToPeers(items: seq<seq<Field>>): (r: seq<PeerInfo>)
    requires forall i :: 0 <= i < |items| ==> |items[i]| == 4
    ensures |r| == |items| && forall i :: 0 <= i < |items| ==> r[i] == ToPeer(items[i])
  {
    seq(|items|, i requires 0 <= i < |items| => ToPeer(items[i]))
  }

  function ToAppends(items: seq<seq<Field>>): (r: seq<Append>)
    requires forall i :: 0 <= i < |items| ==> |items[i]| == 6
    ensures |r| == |items| && forall i :: 0 <= i < |items| ==> r[i] == ToAppend(items[i])
  {
    seq(|items|, i requires 0 <= i < |items| => ToAppend(items[i]))
  }

  /** The place of the first newline; the length if there is none. */
  function FindNewline(s: Text): (n: nat)
    ensures n <= |s| && (forall i :: 0 <= i < n ==> s[i] != NEWLINE) && (n < |s| ==> s[n] == NEWLINE)
  {
    var r := Find(s, NEWLINE, 0);
    if r.None? then |s| else r.value
  }

  function DecodeClipboard(s: Text): Option<Message> {
    var n := FindNewline(s);
    if n == |s| then None else Some(Clipboard(s[n + 1..], s[..n]))
  }

  const SERVER_TAIL: seq<Kind> := [KOpt(8, KRaw(8), Raw([0, 0, 0, 0, 0, 0, 0, 0])), NO_TEXT16, NO_TEXT16, NO_TEXT16]

  function ServerTail(hostname: Text, version: Text, s: Text): Option<Message> {
    var r :- ReadAll(SERVER_TAIL, s);
    var fs := r.0;
    Some(ServerInfo(hostname, version, if |S(fs[0])| == 8 then S(fs[0]) else seq(8, _ => 0), S(fs[1]), S(fs[2]), S(fs[3])))
  }

  /** The newline-delimited form if there are two newlines anywhere, else the length-prefixed one. */
  function DecodeServerInfo(s: Text): Option<Message> {
    var n := FindNewline(s);
    var m := if n < |s| then n + 1 + FindNewline(s[n + 1..]) else n;
    if n < |s| && m < |s| then ServerTail(s[..n], s[n + 1..m], s[m + 1..])
    else
      var r :- ReadAll([KStr16, KStr16], s);
      ServerTail(S(r.0[0]), S(r.0[1]), r.1)
  }

  function DecodeJoinReply(s: Text): Option<Message> {
    var first :- ReadAll([KU8], s);
    if Bool(first.0[0]) then
      var r :- ReadAll([KStr8, KStr16, KStr8, KStr8, KStr16], first.1);
      Some(JoinReply(true, S(r.0[0]), S(r.0[1]), S(r.0[2]), S(r.0[3]), S(r.0[4]), []))
    else
      var r :- ReadAll([KStr8], first.1);
      Some(JoinReply(false, [], [], [], [], [], S(r.0[0])))
  }

  function DecodeHello(s: Text): Option<Message> {
    var head :- ReadAll([KStr8, KStr8, KStr8], s);
    var items :- ReadItems(PEER, head.1, None);
    Some(Hello(S(head.0[0]), S(head.0[1]), S(head.0[2]), ToPeers(items)))
  }

  function DecodeBatch(s: Text): Option<Message> {
    var head :- ReadAll([KStr8], s);
    var items :- ReadItems(APPEND, head.1, Some(MAX_BATCH));
    Some(ConversationBatch(S(head.0[0]), ToAppends(items)))
  }

  /** The switch of decode. Bytes after the last field are ignored. */
  function DecodePayload(t: int, s: Text): Option<Message> {
    match t
    case 0x04 => DecodeClipboard(s)
    case 0x05 => DecodeClipboard(s)
    case 0x08 =>
      var items :- ReadItems(SESSION, s, None);
      Some(SessionList(ToSessions(items)))
    case 0x09 => DecodeServerInfo(s)
    case 0x15 => DecodeHello(s)
    case 0x16 =>
      var items :- ReadItems(PEER, s, None);
      Some(Gossip(ToPeers(items)))
    case 0x25 => DecodeBatch(s)
    case 0x29 => DecodeJoinReply(s)
    case _ =>
      var ks :- Shape(t);
      var r :- ReadAll(ks, s);
      Some(Build(t, r.0))
  }

  /** The payload of terminal output, the most frequent message: the markdown flag in a byte, then the text. */
  lemma OutputBytes(data: Text, renderMarkdown: bool)
    ensures Payload(Output(data, renderMarkdown)) == Some([if renderMarkdown then 1 else 0] + data)
  {
    var fs := [U8(if renderMarkdown then 1 else 0), Raw(data)];
    assert Fields(Output(data, renderMarkdown)) == fs && Items(Output(data, renderMarkdown)) == [];
    assert fs[1..] == [Raw(data)] && [Raw(data)][1..] == [];
    EncStep(fs);
    EncStep([Raw(data)]);
    assert EncItems([]) == Some([]);
    assert Enc(fs[0]).value == [if renderMarkdown then 1 else 0] && data + [] == data;
    hide EncAll, EncItems;
    var all: Text := [if renderMarkdown then 1 else 0] + data;
    assert all + [] == all;
  }

  // ── Round trip: messages read field by field ──────────────────────────────────

  predicate Simple(m: Message) { Shape(TypeByte(m)).Some? }

  predicate NoRest(ks: seq<Kind>) {
    forall i :: 0 <= i < |ks| ==> !TakesRest(ks[i])
  }

  predicate DataFits(m: Message) {
    !Oversize(m) && (m.CuaResponse? ==> |m.data| <= MAX_IMAGE)
  }

  /** Every field that the decoder reads was written. */
  predicate Complete(m: Message) {
    && Simple(m)
    && var ks := Shape(TypeByte(m)).value;
       FitAll(Fields(m), ks) && OnlyLastTakesRest(ks)
  }

  predicate IsTerminal(m: Message) { m.Keystroke? || m.Output? || m.Resize? || m.ClipboardEcho? || m.Detach? || m.Ping? || m.Pong? }

  lemma TerminalComplete(m: Message)
    requires IsTerminal(m) && DataFits(m)
    ensures Complete(m)
  {
  }

  lemma TerminalBuilds(m: Message)
    requires IsTerminal(m)
    ensures Simple(m) && |Fields(m)| == |Shape(TypeByte(m)).value| && Build(TypeByte(m), Fields(m)) == m
  {
  }

  predicate IsSession(m: Message) { m.Scrollback? || m.Signal? || m.ExitCode? }

  lemma SessionComplete(m: Message)
    requires IsSession(m) && DataFits(m)
    ensures Complete(m)
  {
  }

  lemma SessionBuilds(m: Message)
    requires IsSession(m)
    ensures Simple(m) && |Fields(m)| == |Shape(TypeByte(m)).value| && Build(TypeByte(m), Fields(m)) == m
  {
  }

  predicate IsSessionNotice(m: Message) { m.ScrollbackAck? || m.SessionDied? || m.ImageAck? }

  lemma SessionNoticeComplete(m: Message)
    requires IsSessionNotice(m) && DataFits(m)
    ensures Complete(m)
  {
  }

  lemma SessionNoticeBuilds(m: Message)
    requires IsSessionNotice(m)
    ensures Simple(m) && |Fields(m)| == |Shape(TypeByte(m)).value| && Build(TypeByte(m), Fields(m)) == m
  {
  }

  predicate IsImage(m: Message) { m.ImageData? || m.ImageFrame? }

  lemma ImageComplete(m: Message)
    requires IsImage(m) && DataFits(m)
    ensures Complete(m)
  {
  }

  lemma ImageBuilds(m: Message)
    requires IsImage(m)
    ensures Simple(m) && |Fields(m)| == |Shape(TypeByte(m)).value| && Build(TypeByte(m), Fields(m)) == m
  {
  }

  lemma SearchComplete(m: Message)
    requires m.SessionSearch? && DataFits(m)
    ensures Complete(m)
  {
  }

  lemma SearchBuilds(m: Message)
    requires m.SessionSearch?
    ensures Simple(m) && |Fields(m)| == |Shape(TypeByte(m)).value| && Build(TypeByte(m), Fields(m)) == m
  {
  }

  predicate IsSdp(m: Message) { m.SdpOffer? || m.SdpAnswer? }

  lemma SdpComplete(m: Message)
    requires IsSdp(m) && DataFits(m)
    ensures Complete(m)
  {
  }

  lemma SdpBuilds(m: Message)
    requires IsSdp(m)
    ensures Simple(m) && |Fields(m)| == |Shape(TypeByte(m)).value| && Build(TypeByte(m), Fields(m)) == m
  {
  }

  predicate IsDhtLookup(m: Message) { m.DhtFindNode? || m.DhtFindValue? }

  lemma DhtLookupComplete(m: Message)
    requires IsDhtLookup(m) && DataFits(m)
    ensures Complete(m)
  {
  }

  lemma DhtLookupBuilds(m: Message)
    requires IsDhtLookup(m)
    ensures Simple(m) && |Fields(m)| == |Shape(TypeByte(m)).value| && Build(TypeByte(m), Fields(m)) == m
  {
  }

  predicate IsTransfer(m: Message) { m.FileChunk? || m.FileAck? }

  lemma TransferComplete(m: Message)
    requires IsTransfer(m) && DataFits(m)
    ensures Complete(m)
  {
  }

  lemma TransferBuilds(m: Message)
    requires IsTransfer(m)
    ensures Simple(m) && |Fields(m)| == |Shape(TypeByte(m)).value| && Build(TypeByte(m), Fields(m)) == m
  {
  }

  predicate IsGap(m: Message) { m.AttachAck? || m.OutputGap? }

  lemma GapComplete(m: Message)
    requires IsGap(m) && DataFits(m)
    ensures Complete(m)
  {
  }

  lemma GapBuilds(m: Message)
    requires IsGap(m)
    ensures Simple(m) && |Fields(m)| == |Shape(TypeByte(m)).value| && Build(TypeByte(m), Fields(m)) == m
  {
  }

  lemma ConversationAppendComplete(m: Message)
    requires m.ConversationAppend? && DataFits(m)
    ensures Complete(m)
  {
  }

  lemma ConversationAppendBuilds(m: Message)
    requires m.ConversationAppend?
    ensures Simple(m) && |Fields(m)| == |Shape(TypeByte(m)).value| && Build(TypeByte(m), Fields(m)) == m
  {
  }

  lemma ConversationQueryComplete(m: Message)
    requires m.ConversationQuery? && DataFits(m)
    ensures Complete(m)
  {
  }

  lemma ConversationQueryBuilds(m: Message)
    requires m.ConversationQuery?
    ensures Simple(m) && |Fields(m)| == |Shape(TypeByte(m)).value| && Build(TypeByte(m), Fields(m)) == m
  {
  }

  lemma EnrollComplete(m: Message)
    requires m.DirectoryEnroll? && DataFits(m)
    ensures Complete(m)
  {
  }

  lemma EnrollBuilds(m: Message)
    requires m.DirectoryEnroll?
    ensures Simple(m) && |Fields(m)| == |Shape(TypeByte(m)).value| && Build(TypeByte(m), Fields(m)) == m
  {
  }

  lemma CuaRequestComplete(m: Message)
    requires m.CuaRequest? && DataFits(m)
    ensures Complete(m)
  {
  }

  lemma CuaRequestBuilds(m: Message)
    requires m.CuaRequest?
    ensures Simple(m) && |Fields(m)| == |Shape(TypeByte(m)).value| && Build(TypeByte(m), Fields(m)) == m
  {
  }

  lemma CuaCaptureComplete(m: Message)
    requires m.CuaVideoCapture? && DataFits(m)
    ensures Complete(m)
  {
  }

  lemma CuaCaptureBuilds(m: Message)
    requires m.CuaVideoCapture?
    ensures Simple(m) && |Fields(m)| == |Shape(TypeByte(m)).value| && Build(TypeByte(m), Fields(m)) == m
  {
  }

  lemma CuaResponseComplete(m: Message)
    requires m.CuaResponse? && DataFits(m)
    ensures Complete(m)
  {
  }

  lemma CuaResponseBuilds(m: Message)
    requires m.CuaResponse?
    ensures Simple(m) && |Fields(m)| == |Shape(TypeByte(m)).value| && Build(TypeByte(m), Fields(m)) == m
  {
  }

  lemma CuaCaptureResultComplete(m: Message)
    requires m.CuaVideoCaptureResult? && DataFits(m)
    ensures Complete(m)
  {
  }

  lemma CuaCaptureResultBuilds(m: Message)
    requires m.CuaVideoCaptureResult?
    ensures Simple(m) && |Fields(m)| == |Shape(TypeByte(m)).value| && Build(TypeByte(m), Fields(m)) == m
  {
  }

  // ── Messages that newer senders extend ────────────────────────────────────────

  predicate Extensible(m: Message) { m.Attach? || m.FileMeta? || m.FileRequest? || m.JoinRequest? }

  /** How many fields every sender writes. */
  function Mandatory(m: Message): nat
    requires Extensible(m)
  {
    if m.Attach? || m.FileMeta? then 5 else 1
  }

  /** The message as a sender that stops after n fields means it: documented defaults for the rest. */
  function Cut(m: Message, n: nat): Message
    requires Extensible(m)
  {
    match m
    case Attach(sessionName, routing, cols, rows, term, command, signalOnDetach, id, spectator, reconnectOnly) =>
      Attach(sessionName, routing, cols, rows, term, if n > 5 then command else [], if n > 6 then signalOnDetach else [],
             if n > 7 then id else 0, n > 8 && spectator, n > 9 && reconnectOnly)
    case FileMeta(filename, filesize, checksum, totalChunks, chunkSize, destPath, srcMtime, direct) =>
      FileMeta(filename, filesize, checksum, totalChunks, if n > 5 then chunkSize else 0, if n > 6 then destPath else [],
               if n > 7 then srcMtime else 0, if n > 7 then direct else 0)
    case FileRequest(path, mode) => FileRequest(path, if n > 1 then mode else 0)
    case JoinRequest(token, nodeName, listenAddr) =>
      JoinRequest(token, if n > 1 then nodeName else [], if n > 2 then listenAddr else [])
  }

  /** The first n fields fit, and nothing but optional fields is missing. */
  predicate CutFits(m: Message, n: nat) {
    && Simple(m) && n <= |Fields(m)|
    && var ks := Shape(TypeByte(m)).value;
       && n <= |ks| && FitAll(Fields(m)[..n], ks[..n])
       && (forall i :: 0 <= i < |ks| ==> !TakesRest(ks[i])) && forall i :: n <= i < |ks| ==> Optional(ks[i])
  }

  predicate FieldsFit(m: Message) {
    && Simple(m)
    && var (fs, ks) := (Fields(m), Shape(TypeByte(m)).value);
       |fs| <= |ks| && forall i :: 0 <= i < |fs| ==> Fits(fs[i], ks[i])
  }

  predicate TailIsOptional(m: Message) {
    && Simple(m) && Extensible(m)
    && var ks := Shape(TypeByte(m)).value;
       && (forall i :: 0 <= i < |ks| ==> !TakesRest(ks[i]))
       && Mandatory(m) <= |ks| && forall i :: Mandatory(m) <= i < |ks| ==> Optional(ks[i])
  }

  predicate FitsWithOptional(m: Message) { FieldsFit(m) && TailIsOptional(m) }

  lemma AttachKindsFit(fs: seq<Field>)
    requires |fs| == 10 && fs[0].U16? && fs[1].U16? && fs[2].Str8? && fs[3].Str8? && fs[4].Str8? && fs[5].Str16?
    requires fs[6].Str16? && fs[7].U32? && fs[8].U8? && fs[9].U8?
    ensures FitAll(fs, Shape(0x06).value)
  {
  }

  lemma AttachFits(m: Message)
    requires m.Attach?
    ensures FieldsFit(m)
  {
    AttachKindsFit(Fields(m));
    hide Fits;
  }

  lemma AttachIsOptional(m: Message)
    requires m.Attach?
    ensures TailIsOptional(m)
  {
  }

  lemma FileMetaFits(m: Message)
    requires m.FileMeta?
    ensures FieldsFit(m)
  {
  }

  lemma FileMetaIsOptional(m: Message)
    requires m.FileMeta?
    ensures TailIsOptional(m)
  {
  }

  lemma FileRequestFits(m: Message)
    requires m.FileRequest?
    ensures FitsWithOptional(m)
  {
  }

  lemma JoinRequestFits(m: Message)
    requires m.JoinRequest?
    ensures FieldsFit(m)
  {
  }

  lemma JoinRequestIsOptional(m: Message)
    requires m.JoinRequest?
    ensures TailIsOptional(m)
  {
  }

  lemma ExtensibleFits(m: Message, n: nat)
    requires Extensible(m) && Mandatory(m) <= n <= |Fields(m)|
    ensures CutFits(m, n)
  {
    if m.Attach? { AttachFits(m); AttachIsOptional(m); } else if m.FileMeta? { FileMetaFits(m); FileMetaIsOptional(m); }
    else if m.FileRequest? { FileRequestFits(m); } else { JoinRequestFits(m); JoinRequestIsOptional(m); }
    hide Fits, TakesRest, Fields, Shape, Optional;
  }

  /** The fields up to n, and the defaults after. */
  function CutFields(m: Message, n: nat): (r: seq<Field>)
    requires Simple(m) && n <= |Fields(m)| && n <= |Shape(TypeByte(m)).value|
    ensures var ks := Shape(TypeByte(m)).value;
            && |r| == |ks|
            && forall i :: 0 <= i < |ks| ==> r[i] == if i < n then Fields(m)[i] else DefaultOf(ks[i])
  {
    Fields(m)[..n] + Defaults(Shape(TypeByte(m)).value[n..])
  }

  lemma AttachSize(m: Message)
    requires m.Attach?
    ensures |Fields(m)| == 10
  {
  }

  lemma AttachBuilds(m: Message, n: nat)
    requires m.Attach? && 5 <= n <= 10
    ensures |Fields(m)| == 10 && Build(0x06, CutFields(m, n)) == Cut(m, n)
  {
    AttachSize(m);
    var fs := CutFields(m, n);
    AttachHead(m, fs, n);
    hide CutFields, Defaults, DefaultOf, Fields, Shape;
    AttachDefaults();
    AttachTail(m);
  }

  lemma AttachHead(m: Message, fs: seq<Field>, n: nat)
    requires m.Attach? && n <= 10 && |Fields(m)| == 10 && |fs| == 10
    requires 5 <= n && forall i :: 0 <= i < 5 ==> fs[i] == Fields(m)[i]
    ensures Build(0x06, fs) == Attach(m.sessionName, m.routing, m.cols, m.rows, m.term, S(fs[5]), S(fs[6]), D(fs[7]),
                                      Bool(fs[8]), Bool(fs[9]))
  {
  }

  lemma AttachTail(m: Message)
    requires m.Attach? && |Fields(m)| == 10
    ensures var fs := Fields(m);
            && S(fs[5]) == m.command && S(fs[6]) == m.signalOnDetach && D(fs[7]) == m.clientInstanceId
            && Bool(fs[8]) == m.spectator && Bool(fs[9]) == m.reconnectOnly
  {
  }

  lemma AttachDefaults()
    ensures var ks := Shape(0x06).value;
            && DefaultOf(ks[5]) == Str16([]) && DefaultOf(ks[6]) == Str16([]) && DefaultOf(ks[7]) == U32(0)
            && DefaultOf(ks[8]) == U8(0) && DefaultOf(ks[9]) == U8(0)
  {
  }

  lemma FileMetaExtension(srcMtime: U64, direct: Byte)
    ensures var s := Be64(srcMtime) + [direct];
            |s| == 9 && ReadU64(s) == srcMtime && s[8] == direct
  {
    Be64RoundTrip(srcMtime, [direct]);
  }

  lemma FileMetaBuilds(m: Message, n: nat)
    requires m.FileMeta? && 5 <= n <= |Fields(m)|
    ensures |Fields(m)| <= 8 && Build(0x1C, CutFields(m, n)) == Cut(m, n)
  {
    FileMetaFields(m);
    FileMetaDefaults();
    var fs := CutFields(m, n);
    hide *;
    FileMetaHead(m, fs);
    FileMetaEnd(m, n, fs[5], fs[6], fs[7]);
  }

  lemma FileMetaEnd(m: Message, n: nat, size: Field, path: Field, ext: Field)
    requires m.FileMeta?
    requires size == U32(if n > 5 then m.chunkSize else 0) && path == Str16(if n > 6 then m.destPath else [])
    requires ext == Raw(if n > 7 then Be64(m.srcMtime) + [m.direct] else [0, 0, 0, 0, 0, 0, 0, 0, 0])
    ensures Cut(m, n) == FileMeta(m.filename, m.filesize, m.checksum, m.totalChunks, D(size), S(path),
                                  if |S(ext)| == 9 then ReadU64(S(ext)) else 0, if |S(ext)| == 9 then S(ext)[8] else 0)
  {
    FileMetaExtension(m.srcMtime, m.direct);
    NoExtension();
    hide Be64, ReadU64;
  }

  /** Fields that are not written have their defaults anyway. */
  lemma FileMetaFields(m: Message)
    requires m.FileMeta?
    ensures var fs := Fields(m);
            && 6 <= |fs| <= 8
            && fs[0] == Str8(m.filename) && fs[1] == U32(m.filesize / 0x1_0000_0000)
            && fs[2] == U32(m.filesize % 0x1_0000_0000) && fs[3] == Str8(m.checksum)
            && fs[4] == U32(m.totalChunks) && fs[5] == U32(m.chunkSize)
            && (|fs| > 6 ==> fs[6] == Str16(m.destPath))
            && (|fs| > 7 ==> fs[7] == Raw(Be64(m.srcMtime) + [m.direct]))
  {
  }

  lemma FileMetaDefaults()
    ensures var ks := Shape(0x1C).value;
            && |ks| == 8 && DefaultOf(ks[5]) == U32(0) && DefaultOf(ks[6]) == Str16([])
            && DefaultOf(ks[7]) == Raw([0, 0, 0, 0, 0, 0, 0, 0, 0])
  {
  }

  lemma FileMetaHead(m: Message, fs: seq<Field>)
    requires m.FileMeta? && |fs| == 8
    requires fs[0] == Str8(m.filename) && fs[1] == U32(m.filesize / 0x1_0000_0000)
    requires fs[2] == U32(m.filesize % 0x1_0000_0000) && fs[3] == Str8(m.checksum) && fs[4] == U32(m.totalChunks)
    ensures var ext := S(fs[7]);
            Build(0x1C, fs) == FileMeta(m.filename, m.filesize, m.checksum, m.totalChunks, D(fs[5]), S(fs[6]),
                                        if |ext| == 9 then ReadU64(ext) else 0, if |ext| == 9 then ext[8] else 0)
  {
    hide ReadU64;
  }

  lemma NoExtension()
    ensures ReadU64([0, 0, 0, 0, 0, 0, 0, 0, 0]) == 0
  {
  }

  lemma FileRequestFields(m: Message)
    requires m.FileRequest?
    ensures |Shape(0x1F).value| == 2 && DefaultOf(Shape(0x1F).value[1]) == U8(0)
    ensures 1 <= |Fields(m)| <= 2 && Fields(m)[0] == Str16(m.path) && (|Fields(m)| > 1 ==> Fields(m)[1] == U8(m.mode))
  {
  }

  lemma FileRequestHead(m: Message, n: nat, fs: seq<Field>)
    requires m.FileRequest? && |fs| == 2 && fs[0] == Str16(m.path) && fs[1] == U8(if n > 1 then m.mode else 0)
    ensures Build(0x1F, fs) == Cut(m, n)
  {
  }

  lemma FileRequestBuilds(m: Message, n: nat)
    requires m.FileRequest? && 1 <= n <= |Fields(m)|
    ensures n <= 2 && Build(0x1F, CutFields(m, n)) == Cut(m, n)
  {
    FileRequestFields(m);
    var fs := CutFields(m, n);
    hide *;
    FileRequestHead(m, n, fs);
  }

  lemma JoinRequestFields(m: Message)
    requires m.JoinRequest?
    ensures Fields(m) == [Str8(m.token), Str8(m.nodeName), Str8(m.listenAddr)]
  {
  }

  lemma JoinRequestHead(m: Message, n: nat, fs: seq<Field>)
    requires m.JoinRequest? && |fs| == 3
    requires fs[0] == Str8(m.token) && fs[1] == Str8(if n > 1 then m.nodeName else [])
    requires fs[2] == Str8(if n > 2 then m.listenAddr else [])
    ensures Build(0x28, fs) == Cut(m, n)
  {
  }

  lemma JoinRequestBuilds(m: Message, n: nat)
    requires m.JoinRequest? && 1 <= n <= |Fields(m)|
    ensures n <= 3 && Build(0x28, CutFields(m, n)) == Cut(m, n)
  {
    JoinRequestFields(m);
    JoinRequestDefaults();
    var fs := CutFields(m, n);
    hide *;
    JoinRequestHead(m, n, fs);
  }

  lemma JoinRequestDefaults()
    ensures var ks := Shape(0x28).value;
            |ks| == 3 && DefaultOf(ks[1]) == Str8([]) && DefaultOf(ks[2]) == Str8([])
  {
  }

  lemma ExtensibleBuilds(m: Message, n: nat)
    requires Extensible(m) && Mandatory(m) <= n <= |Fields(m)|
    ensures CutFits(m, n)
    ensures Build(TypeByte(m), CutFields(m, n)) == Cut(m, n)
  {
    hide Build, CutFields, Fields, Shape, Cut, CutFits;
    ExtensibleFits(m, n);
    if m.Attach? { AttachSize(m); AttachBuilds(m, n); }
    else if m.FileMeta? { FileMetaBuilds(m, n); }
    else if m.FileRequest? { FileRequestBuilds(m, n); }
    else { JoinRequestBuilds(m, n); }
  }

  /** Messages read field by field: the decoder's calls, then the message. */
  lemma DecodesFields(t: int, s: Text)
    requires Shape(t).Some?
    ensures DecodePayload(t, s)
         == (match ReadAll(Shape(t).value, s) case None => None case Some(r) => Some(Build(t, r.0)))
  {
    hide ReadAll, ReadItems, Build, DecodeClipboard, DecodeServerInfo, DecodeHello, DecodeBatch, DecodeJoinReply;
  }

  lemma EncPrefix(fs: seq<Field>, n: nat)
    requires n <= |fs| && EncAll(fs).Some?
    ensures EncAll(fs[..n]).Some? && EncAll(fs[..n]).value <= EncAll(fs).value
    ensures n == |fs| ==> EncAll(fs[..n]) == EncAll(fs)
  {
    hide EncAll;
    EncSum(fs[..n], fs[n..]);
    assert fs == fs[..n] + fs[n..];
    assert n == |fs| ==> fs[..n] == fs;
  }

  /** New decoders read old senders: cut at any boundary of the optional fields, the leading fields come
      back unchanged and each missing one with its default. */
  lemma OldSendersAreRead(m: Message, n: nat)
    requires Extensible(m) && Mandatory(m) <= n <= |Fields(m)| && EncAll(Fields(m)).Some?
    ensures EncAll(Fields(m)[..n]).Some?
    ensures DecodePayload(TypeByte(m), EncAll(Fields(m)[..n]).value) == Some(Cut(m, n))
  {
    EncPrefix(Fields(m), n);
    ExtensibleBuilds(m, n);
    hide EncAll, Fields, Shape, Build, Cut, DecodePayload, ReadAll, Fits, TakesRest;
    var ks := Shape(TypeByte(m)).value;
    ReadsOldSender(Fields(m)[..n], ks, n);
    DecodesFields(TypeByte(m), EncAll(Fields(m)[..n]).value);
  }

  lemma CutNothing(m: Message)
    requires Extensible(m)
    ensures Mandatory(m) <= |Fields(m)| && Cut(m, |Fields(m)|) == m
  {
  }

  lemma NoItems(m: Message)
    requires Simple(m)
    ensures Items(m) == []
  {
  }

  lemma PayloadWithoutItems(m: Message)
    requires Items(m) == [] && Payload(m).Some?
    ensures EncAll(Fields(m)) == Payload(m) && !Oversize(m)
  {
    hide EncAll, Fields, Items;
    assert EncItems([]) == Some([]);
    assert EncAll(Fields(m)).value + [] == EncAll(Fields(m)).value;
  }

  lemma CompleteDecodes(m: Message)
    requires Complete(m) && Build(TypeByte(m), Fields(m)) == m && Payload(m).Some?
    ensures DecodePayload(TypeByte(m), Payload(m).value) == Some(m)
  {
    NoItems(m);
    PayloadWithoutItems(m);
    hide EncAll, Fields, Shape, Build, DecodePayload, ReadAll, Payload, Items, Fits, TakesRest;
    ReadAllBack(Fields(m), Shape(TypeByte(m)).value, []);
    assert Payload(m).value + [] == Payload(m).value;
    DecodesFields(TypeByte(m), Payload(m).value);
  }

  lemma SimpleRoundTrip(m: Message)
    requires Simple(m) && DataFits(m) && Payload(m).Some?
    ensures DecodePayload(TypeByte(m), Payload(m).value) == Some(m)
  {
    hide Fields, Shape, Build, DecodePayload, Payload, EncAll, Complete, Cut, Items, DataFits;
    if Extensible(m) {
      NoItems(m);
      PayloadWithoutItems(m);
      CutNothing(m);
      OldSendersAreRead(m, |Fields(m)|);
      assert Fields(m)[..|Fields(m)|] == Fields(m);
    } else {
      SimpleBuilds(m);
      CompleteDecodes(m);
    }
  }

  lemma SimpleBuilds(m: Message)
    requires Simple(m) && DataFits(m) && !Extensible(m)
    ensures Complete(m) && |Fields(m)| == |Shape(TypeByte(m)).value| && Build(TypeByte(m), Fields(m)) == m
  {
    SimpleKinds(m);
    hide Fields, Shape, Build, Complete, DataFits, TypeByte;
    if IsTerminal(m) { TerminalComplete(m); TerminalBuilds(m); }
    else if IsSession(m) { SessionComplete(m); SessionBuilds(m); }
    else if IsSessionNotice(m) { SessionNoticeComplete(m); SessionNoticeBuilds(m); }
    else if IsImage(m) { ImageComplete(m); ImageBuilds(m); }
    else if m.SessionSearch? { SearchComplete(m); SearchBuilds(m); }
    else if IsSdp(m) { SdpComplete(m); SdpBuilds(m); }
    else if IsDhtLookup(m) { DhtLookupComplete(m); DhtLookupBuilds(m); }
    else if IsTransfer(m) { TransferComplete(m); TransferBuilds(m); }
    else if IsGap(m) { GapComplete(m); GapBuilds(m); }
    else if m.ConversationAppend? { ConversationAppendComplete(m); ConversationAppendBuilds(m); }
    else if m.ConversationQuery? { ConversationQueryComplete(m); ConversationQueryBuilds(m); }
    else if m.DirectoryEnroll? { EnrollComplete(m); EnrollBuilds(m); }
    else if m.CuaRequest? { CuaRequestComplete(m); CuaRequestBuilds(m); }
    else if m.CuaVideoCapture? { CuaCaptureComplete(m); CuaCaptureBuilds(m); }
    else if m.CuaResponse? { CuaResponseComplete(m); CuaResponseBuilds(m); }
    else { CuaCaptureResultComplete(m); CuaCaptureResultBuilds(m); }
  }

  lemma SimpleKinds(m: Message)
    requires Simple(m) && !Extensible(m)
    ensures IsTerminal(m) || IsSession(m) || IsSessionNotice(m) || IsImage(m) || m.SessionSearch? || IsSdp(m) || IsDhtLookup(m)
         || IsTransfer(m) || IsGap(m) || m.ConversationAppend? || m.ConversationQuery? || m.DirectoryEnroll? || m.CuaRequest?
         || m.CuaVideoCapture? || m.CuaResponse? || m.CuaVideoCaptureResult?
  {
  }

  // ── Round trip: lists, clipboard, join reply ──────────────────────────────────

  function CanonSession(s: SessionInfo): SessionInfo {
    s.(uptime := if s.uptime < 0x1_0000_0000 then s.uptime else 0xFFFF_FFFF)
  }

  function CanonPeer(p: PeerInfo): PeerInfo {
    p.(lastSeen := p.lastSeen % 0x1_0000_0000)
  }

  function CanonSessions(xs: seq<SessionInfo>): (r: seq<SessionInfo>)
    ensures |r| == |xs| && forall i :: 0 <= i < |xs| ==> r[i] == CanonSession(xs[i])
  {
    seq(|xs|, i requires 0 <= i < |xs| => CanonSession(xs[i]))
  }

  function CanonPeers(xs: seq<PeerInfo>): (r: seq<PeerInfo>)
    ensures |r| == |xs| && forall i :: 0 <= i < |xs| ==> r[i] == CanonPeer(xs[i])
  {
    seq(|xs|, i requires 0 <= i < |xs| => CanonPeer(xs[i]))
  }

  /** What a message is after its trip: uptimes saturate and last_seen wraps at 32 bits, the clipboard is
      split at the first newline, and a join reply has only the half that its flag stands for. */
  function Canon(m: Message): Message {
    match m
    case SessionList(sessions) => SessionList(CanonSessions(sessions))
    case Hello(nodeName, version, pubkey, peers) => Hello(nodeName, version, pubkey, CanonPeers(peers))
    case Gossip(peers) => Gossip(CanonPeers(peers))
    case Clipboard(text, hash) =>
      var n := FindNewline(hash);
      if n == |hash| then m else Clipboard(hash[n + 1..] + [NEWLINE] + text, hash[..n])
    case JoinReply(ok, nodeName, seedsCsv, hostPubkey, hostAddr, peerPubkeys, errorText) =>
      if ok then JoinReply(true, nodeName, seedsCsv, hostPubkey, hostAddr, peerPubkeys, [])
      else JoinReply(false, [], [], [], [], [], errorText)
    case _ => m
  }

  /** Exactly these messages come back as they were. */
  predicate Exact(m: Message) {
    match m
    case SessionList(sessions) => forall i :: 0 <= i < |sessions| ==> sessions[i].uptime < 0x1_0000_0000
    case Hello(_, _, _, peers) => forall i :: 0 <= i < |peers| ==> peers[i].lastSeen < 0x1_0000_0000
    case Gossip(peers) => forall i :: 0 <= i < |peers| ==> peers[i].lastSeen < 0x1_0000_0000
    case Clipboard(_, hash) => NEWLINE !in hash
    case JoinReply(ok, nodeName, seedsCsv, hostPubkey, hostAddr, peerPubkeys, errorText) =>
      if ok then errorText == [] else nodeName == seedsCsv == hostPubkey == hostAddr == peerPubkeys == []
    case _ => true
  }

  lemma CanonPeersExact(xs: seq<PeerInfo>)
    ensures CanonPeers(xs) == xs <==> forall i :: 0 <= i < |xs| ==> xs[i].lastSeen < 0x1_0000_0000
  {
    var r := CanonPeers(xs);
    assert forall i :: 0 <= i < |xs| ==> r[i] == CanonPeer(xs[i]);
    if r == xs {
      forall i | 0 <= i < |xs| ensures xs[i].lastSeen < 0x1_0000_0000 { assert r[i] == xs[i]; }
    }
  }

  lemma CanonSessionsExact(xs: seq<SessionInfo>)
    ensures CanonSessions(xs) == xs <==> forall i :: 0 <= i < |xs| ==> xs[i].uptime < 0x1_0000_0000
  {
    var r := CanonSessions(xs);
    assert forall i :: 0 <= i < |xs| ==> r[i] == CanonSession(xs[i]);
    if r == xs {
      forall i | 0 <= i < |xs| ensures xs[i].uptime < 0x1_0000_0000 { assert r[i] == xs[i]; }
    }
  }

  lemma CanonClipboardExact(m: Message)
    requires m.Clipboard?
    ensures Canon(m) == m <==> NEWLINE !in m.hash
  {
    var n := FindNewline(m.hash);
    if n < |m.hash| {
      assert m.hash[n] == NEWLINE;
      assert |m.hash[..n]| != |m.hash|;
    }
  }

  lemma CanonListExact(m: Message)
    requires m.SessionList? || m.Hello? || m.Gossip?
    ensures Canon(m) == m <==> Exact(m)
  {
    hide CanonPeers, CanonSessions;
    match m {
      case SessionList(sessions) => CanonSessionsExact(sessions);
      case Hello(_, _, _, peers) => CanonPeersExact(peers);
      case Gossip(peers) => CanonPeersExact(peers);
    }
  }

  lemma CanonRestExact(m: Message)
    requires !m.SessionList? && !m.Hello? && !m.Gossip? && !m.Clipboard?
    ensures Canon(m) == m <==> Exact(m)
  {
  }

  /** Which messages come back unchanged. */
  lemma CanonIsIdentityIffExact(m: Message)
    ensures Canon(m) == m <==> Exact(m)
  {
    if m.Clipboard? { CanonClipboardExact(m); }
    hide Canon;
    if m.SessionList? || m.Hello? || m.Gossip? { CanonListExact(m); }
    else if !m.Clipboard? { CanonRestExact(m); }
  }

  // The items that are written are the items that are read.

  lemma SessionItems(xs: seq<SessionInfo>)
    ensures var items := Items(SessionList(xs));
            && ItemsFit(items, SESSION) && |items| == |xs|
            && forall i :: 0 <= i < |xs| ==> items[i] == SessionFields(xs[i])
  {
  }

  lemma ToSessionsCanon(xs: seq<SessionInfo>)
    ensures var items := Items(SessionList(xs));
            (forall i :: 0 <= i < |items| ==> |items[i]| == 3) && ToSessions(items) == CanonSessions(xs)
  {
    SessionItems(xs);
    hide Items;
    var items := Items(SessionList(xs));
    forall i | 0 <= i < |xs| ensures ToSession(items[i]) == CanonSession(xs[i]) { }
  }

  predicate IsPeerItems(items: seq<seq<Field>>, xs: seq<PeerInfo>) {
    |items| == |xs| && forall i :: 0 <= i < |xs| ==> items[i] == PeerFields(xs[i])
  }

  lemma PeerItemsFit(items: seq<seq<Field>>, xs: seq<PeerInfo>)
    requires IsPeerItems(items, xs)
    ensures ItemsFit(items, PEER) && (forall i :: 0 <= i < |items| ==> |items[i]| == 4)
    ensures ToPeers(items) == CanonPeers(xs)
  {
    forall i | 0 <= i < |xs| ensures |items[i]| == 4 && ToPeer(items[i]) == CanonPeer(xs[i]) { }
  }

  lemma AppendItemsFit(convId: Text, xs: seq<Append>)
    ensures var items := Items(ConversationBatch(convId, xs));
            && |items| == |xs| && ItemsFit(items, APPEND) && (forall i :: 0 <= i < |items| ==> |items[i]| == 6)
            && ToAppends(items) == xs
  {
    var items := Items(ConversationBatch(convId, xs));
    forall i | 0 <= i < |xs| ensures items[i] == AppendFields(xs[i]) && |items[i]| == 6 && ToAppend(items[i]) == xs[i] { }
  }

  lemma ItemKinds()
    ensures NoRest(SESSION) && NoRest(PEER) && NoRest(APPEND)
    ensures SESSION[0] == KStr8 && PEER[0] == KStr8 && APPEND[0] == KStr8
  {
  }

  lemma NothingWritten()
    ensures EncAll([]) == Some([])
  {
  }

  lemma PayloadParts(m: Message)
    requires Payload(m).Some?
    ensures EncAll(Fields(m)).Some? && EncItems(Items(m)).Some? && !Oversize(m)
    ensures Payload(m).value == EncAll(Fields(m)).value + EncItems(Items(m)).value
  {
    hide EncAll, EncItems, Fields, Items, Oversize;
  }

  /** The lists that have nothing in front. */
  lemma BareList(m: Message)
    requires (m.SessionList? || m.Gossip?) && Payload(m).Some?
    ensures EncItems(Items(m)) == Payload(m)
  {
    PayloadParts(m);
    NothingWritten();
    assert Fields(m) == [];
    hide EncAll, EncItems, Items, Payload;
    assert [] + EncItems(Items(m)).value == EncItems(Items(m)).value;
  }

  lemma DecodesSessions(s: Text)
    requires ReadItems(SESSION, s, None).Some?
    ensures DecodePayload(0x08, s) == Some(SessionList(ToSessions(ReadItems(SESSION, s, None).value)))
  {
    hide ReadItems, ToSessions;
  }

  lemma SessionListRoundTrip(m: Message)
    requires m.SessionList? && Payload(m).Some?
    ensures DecodePayload(0x08, Payload(m).value) == Some(Canon(m))
  {
    ItemKinds();
    BareList(m);
    SessionItems(m.sessions);
    ToSessionsCanon(m.sessions);
    var items := Items(m);
    assert Items(SessionList(m.sessions)) == items;
    hide EncItems, ReadItems, Items, ItemsFit, ToSessions, CanonSessions, Payload, DecodePayload, NoRest, SESSION;
    ReadItemsBack(items, SESSION, None);
    DecodesSessions(Payload(m).value);
  }

  lemma DecodesGossip(s: Text)
    requires ReadItems(PEER, s, None).Some?
    ensures DecodePayload(0x16, s) == Some(Gossip(ToPeers(ReadItems(PEER, s, None).value)))
  {
    hide ReadItems, ToPeers;
  }

  lemma ItemsOfPeers(m: Message)
    requires m.Gossip? || m.Hello?
    ensures IsPeerItems(Items(m), if m.Gossip? then m.peers else m.knownPeers)
  {
  }

  lemma GossipRoundTrip(m: Message)
    requires m.Gossip? && Payload(m).Some?
    ensures DecodePayload(0x16, Payload(m).value) == Some(Canon(m))
  {
    ItemKinds();
    BareList(m);
    ItemsOfPeers(m);
    var items := Items(m);
    hide EncItems, ReadItems, Items, ItemsFit, IsPeerItems, ToPeers, CanonPeers, Payload, DecodePayload, PEER;
    PeerItemsFit(items, m.peers);
    ReadItemsBack(items, PEER, None);
    DecodesGossip(Payload(m).value);
  }

  lemma HelloHead(m: Message, tail: Text)
    requires m.Hello? && EncAll(Fields(m)).Some?
    ensures ReadAll([KStr8, KStr8, KStr8], EncAll(Fields(m)).value + tail) == Some((Fields(m), tail))
  {
    hide EncAll, ReadAll;
    ReadAllBack(Fields(m), [KStr8, KStr8, KStr8], tail);
  }

  lemma DecodesHello(m: Message, tail: Text, items: seq<seq<Field>>)
    requires m.Hello? && EncAll(Fields(m)).Some?
    requires ReadItems(PEER, tail, None) == Some(items)
    ensures DecodePayload(0x15, EncAll(Fields(m)).value + tail)
         == Some(Hello(m.nodeName, m.version, m.pubkey, ToPeers(items)))
  {
    hide EncAll, ReadAll, ReadItems, ToPeers, Fields, PEER, DecodePayload;
    HelloHead(m, tail);
    HelloFields(m);
    PayloadOfHello(EncAll(Fields(m)).value + tail);
  }

  lemma HelloFields(m: Message)
    requires m.Hello?
    ensures Fields(m) == [Str8(m.nodeName), Str8(m.version), Str8(m.pubkey)]
  {
  }

  lemma PayloadOfHello(s: Text)
    ensures DecodePayload(0x15, s) == DecodeHello(s)
  {
    hide DecodeHello;
  }

  lemma HelloRoundTrip(m: Message)
    requires m.Hello? && Payload(m).Some?
    ensures DecodePayload(0x15, Payload(m).value) == Some(Canon(m))
  {
    ItemKinds();
    PayloadParts(m);
    ItemsOfPeers(m);
    var items := Items(m);
    hide EncAll, EncItems, ReadItems, Items, ItemsFit, IsPeerItems, ToPeers, CanonPeers, Payload, DecodePayload, PEER, Fields;
    PeerItemsFit(items, m.knownPeers);
    ReadItemsBack(items, PEER, None);
    DecodesHello(m, EncItems(items).value, items);
  }

  lemma BatchHead(m: Message, tail: Text)
    requires m.ConversationBatch? && EncAll(Fields(m)).Some?
    ensures ReadAll([KStr8], EncAll(Fields(m)).value + tail) == Some((Fields(m), tail))
  {
    hide EncAll, ReadAll;
    ReadAllBack(Fields(m), [KStr8], tail);
  }

  lemma DecodesBatch(m: Message, tail: Text)
    requires m.ConversationBatch? && EncAll(Fields(m)).Some?
    ensures var items := ReadItems(APPEND, tail, Some(MAX_BATCH));
            DecodePayload(0x25, EncAll(Fields(m)).value + tail)
              == if items.Some? then Some(ConversationBatch(m.convId, ToAppends(items.value))) else None
  {
    var s := EncAll(Fields(m)).value + tail;
    BatchHead(m, tail);
    BatchIsDecoded(s);
    hide DecodePayload, EncAll, ReadAll, ReadItems, ToAppends;
  }

  lemma BatchIsDecoded(s: Text)
    ensures DecodePayload(0x25, s) == DecodeBatch(s)
  {
    hide DecodeBatch;
  }

  /** The decoder takes 512 messages and refuses a batch with more. */
  lemma BatchRoundTrip(m: Message)
    requires m.ConversationBatch? && Payload(m).Some?
    ensures DecodePayload(0x25, Payload(m).value) == if |m.messages| <= 512 then Some(m) else None
  {
    ItemKinds();
    PayloadParts(m);
    AppendItemsFit(m.convId, m.messages);
    var items := Items(m);
    assert Items(ConversationBatch(m.convId, m.messages)) == items;
    hide EncAll, EncItems, ReadItems, Items, ItemsFit, ToAppends, Payload, DecodePayload, APPEND, Fields;
    ReadItemsBack(items, APPEND, Some(MAX_BATCH));
    DecodesBatch(m, EncItems(items).value);
  }

  lemma ClipboardPayload(m: Message)
    requires m.Clipboard?
    ensures Payload(m) == Some(m.hash + [NEWLINE] + m.text)
  {
    var (a, b, c) := (Raw(m.hash), U8(NEWLINE), Raw(m.text));
    assert [a, b, c][1..] == [b, c] && [b, c][1..] == [c] && [c][1..] == [];
    EncStep([a, b, c]);
    EncStep([b, c]);
    EncStep([c]);
    hide EncAll;
    assert [] + m.text == m.text && m.text + [] == m.text;
    assert m.hash + ([NEWLINE] + m.text) == m.hash + [NEWLINE] + m.text;
    assert EncItems([]) == Some([]);
    assert m.hash + [NEWLINE] + m.text + [] == m.hash + [NEWLINE] + m.text;
  }

  lemma {:induction false} NewlineInSum(a: Text, b: Text)
    ensures FindNewline(a + b) == if FindNewline(a) < |a| then FindNewline(a) else |a| + FindNewline(b)
    decreases |a|
  {
    if a == [] {
      assert a + b == b;
    } else if a[0] != NEWLINE {
      assert (a + b)[1..] == a[1..] + b;
      NewlineInSum(a[1..], b);
    }
  }

  lemma ClipboardSplits(m: Message)
    requires m.Clipboard?
    ensures DecodeClipboard(m.hash + [NEWLINE] + m.text) == Some(Canon(m))
  {
    var s := m.hash + [NEWLINE] + m.text;
    var n := FindNewline(m.hash);
    assert s == m.hash + ([NEWLINE] + m.text);
    NewlineInSum(m.hash, [NEWLINE] + m.text);
    assert FindNewline([NEWLINE] + m.text) == 0;
    hide FindNewline;
    if n == |m.hash| {
      assert s[..n] == m.hash && s[n + 1..] == m.text;
    } else {
      assert s[..n] == m.hash[..n] && s[n + 1..] == m.hash[n + 1..] + [NEWLINE] + m.text;
    }
  }

  lemma ClipboardRoundTrip(m: Message)
    requires m.Clipboard?
    ensures Payload(m).Some?
    ensures DecodePayload(0x04, Payload(m).value) == Some(Canon(m)) && DecodePayload(0x05, Payload(m).value) == Some(Canon(m))
  {
    ClipboardPayload(m);
    ClipboardSplits(m);
    hide Payload, Canon, DecodeClipboard;
  }

  lemma JoinReplyParts(m: Message)
    requires m.JoinReply? && Payload(m).Some?
    ensures var rest := if m.ok then [Str8(m.nodeName), Str16(m.seedsCsv), Str8(m.hostPubkey), Str8(m.hostAddr), Str16(m.peerPubkeys)]
                        else [Str8(m.errorText)];
            EncAll(rest).Some? && EncAll([Flag(m.ok)]).Some? && Payload(m).value == EncAll([Flag(m.ok)]).value + EncAll(rest).value
  {
    var rest := if m.ok then [Str8(m.nodeName), Str16(m.seedsCsv), Str8(m.hostPubkey), Str8(m.hostAddr), Str16(m.peerPubkeys)]
                else [Str8(m.errorText)];
    PayloadWithoutItems(m);
    hide EncAll, Payload;
    EncSum([Flag(m.ok)], rest);
  }

  lemma DecodesAccepted(m: Message, first: Text, rest: Text)
    requires m.JoinReply? && m.ok
    requires ReadAll([KU8], first + rest) == Some(([Flag(true)], rest))
    requires ReadAll([KStr8, KStr16, KStr8, KStr8, KStr16], rest)
          == Some(([Str8(m.nodeName), Str16(m.seedsCsv), Str8(m.hostPubkey), Str8(m.hostAddr), Str16(m.peerPubkeys)], []))
    ensures DecodePayload(0x29, first + rest) == Some(Canon(m))
  {
    hide ReadAll;
  }

  lemma DecodesRefused(m: Message, first: Text, rest: Text)
    requires m.JoinReply? && !m.ok
    requires ReadAll([KU8], first + rest) == Some(([Flag(false)], rest))
    requires ReadAll([KStr8], rest) == Some(([Str8(m.errorText)], []))
    ensures DecodePayload(0x29, first + rest) == Some(Canon(m))
  {
    hide ReadAll;
  }

  lemma FlagReads(b: bool, tail: Text)
    ensures EncAll([Flag(b)]).Some? && ReadAll([KU8], EncAll([Flag(b)]).value + tail) == Some(([Flag(b)], tail))
  {
    assert [Flag(b)][1..] == [];
    assert EncAll([Flag(b)]).Some?;
    hide EncAll, ReadAll;
    ReadAllBack([Flag(b)], [KU8], tail);
  }

  lemma AcceptedFits(fs: seq<Field>, ks: seq<Kind>)
    requires |fs| == 5 && fs[0].Str8? && fs[1].Str16? && fs[2].Str8? && fs[3].Str8? && fs[4].Str16?
    requires ks == [KStr8, KStr16, KStr8, KStr8, KStr16]
    ensures FitAll(fs, ks) && OnlyLastTakesRest(ks)
  {
  }

  lemma AcceptedRoundTrip(m: Message)
    requires m.JoinReply? && m.ok && Payload(m).Some?
    ensures DecodePayload(0x29, Payload(m).value) == Some(Canon(m))
  {
    JoinReplyParts(m);
    hide EncAll, Payload, ReadAll, DecodePayload, Canon;
    var rest := [Str8(m.nodeName), Str16(m.seedsCsv), Str8(m.hostPubkey), Str8(m.hostAddr), Str16(m.peerPubkeys)];
    var ks := [KStr8, KStr16, KStr8, KStr8, KStr16];
    AcceptedFits(rest, ks);
    hide FitAll, OnlyLastTakesRest;
    FlagReads(true, EncAll(rest).value);
    ReadAllBack(rest, ks, []);
    assert EncAll(rest).value + [] == EncAll(rest).value;
    DecodesAccepted(m, EncAll([Flag(true)]).value, EncAll(rest).value);
  }

  lemma RefusedRoundTrip(m: Message)
    requires m.JoinReply? && !m.ok && Payload(m).Some?
    ensures DecodePayload(0x29, Payload(m).value) == Some(Canon(m))
  {
    JoinReplyParts(m);
    hide EncAll, Payload, ReadAll, DecodePayload, Canon;
    var rest := [Str8(m.errorText)];
    ReadAllBack([Flag(false)], [KU8], EncAll(rest).value);
    ReadAllBack(rest, [KStr8], []);
    assert EncAll(rest).value + [] == EncAll(rest).value;
    DecodesRefused(m, EncAll([Flag(false)]).value, EncAll(rest).value);
  }

  lemma JoinReplyRoundTrip(m: Message)
    requires m.JoinReply? && Payload(m).Some?
    ensures DecodePayload(0x29, Payload(m).value) == Some(Canon(m))
  {
    hide *;
    if m.ok { AcceptedRoundTrip(m); } else { RefusedRoundTrip(m); }
  }

  /** A payload that the frame can carry is small enough for the decoder's caps. */
  lemma DataIsPart(m: Message)
    requires m.CuaResponse? && Payload(m).Some?
    ensures |m.data| <= |Payload(m).value|
  {
    PayloadWithoutItems(m);
    assert Fields(m)[6] == Blob(m.data);
    hide EncAll, Payload;
    FieldIsPart(Fields(m), 6);
  }

  /** The payload of every message but ServerInfo decodes to the message, as Canon has it; a batch of more
      than 512 is refused. */
  lemma PayloadRoundTrip(m: Message)
    requires !m.ServerInfo? && Payload(m).Some? && |Payload(m).value| <= MAX_PAYLOAD_U32
    ensures DecodePayload(TypeByte(m), Payload(m).value)
         == if m.ConversationBatch? && |m.messages| > 512 then None else Some(Canon(m))
  {
    hide Payload, DecodePayload, Canon, TypeByte, Simple, Oversize;
    SimpleOrSpecial(m);
    SpecialTypes(m);
    SimpleIsCanonical(m);
    PayloadParts(m);
    if m.CuaResponse? { DataIsPart(m); }
    if m.ConversationBatch? { OtherIsCanonical(m); }
    if Simple(m) { SimpleRoundTrip(m); }
    else if m.SessionList? { SessionListRoundTrip(m); }
    else if m.Gossip? { GossipRoundTrip(m); }
    else if m.Hello? { HelloRoundTrip(m); }
    else if m.ConversationBatch? { BatchRoundTrip(m); }
    else if m.Clipboard? { ClipboardRoundTrip(m); }
    else { JoinReplyRoundTrip(m); }
  }

  lemma SimpleOrSpecial(m: Message)
    ensures Simple(m) || m.SessionList? || m.Gossip? || m.Hello? || m.ConversationBatch? || m.Clipboard? || m.JoinReply?
         || m.ServerInfo?
  {
  }

  lemma SpecialTypes(m: Message)
    ensures m.SessionList? ==> TypeByte(m) == 0x08
    ensures m.Gossip? ==> TypeByte(m) == 0x16
    ensures m.Hello? ==> TypeByte(m) == 0x15
    ensures m.ConversationBatch? ==> TypeByte(m) == 0x25 && !Simple(m)
    ensures m.Clipboard? ==> TypeByte(m) == 0x04
    ensures m.JoinReply? ==> TypeByte(m) == 0x29
  {
  }

  lemma SimpleIsCanonical(m: Message)
    ensures Simple(m) ==> Canon(m) == m
  {
    hide Canon, Shape;
    if m.SessionList? || m.Gossip? || m.Hello? || m.Clipboard? || m.JoinReply? {
      NotSimple(m);
    } else {
      OtherIsCanonical(m);
    }
  }

  lemma NotSimple(m: Message)
    requires m.SessionList? || m.Gossip? || m.Hello? || m.Clipboard? || m.JoinReply?
    ensures !Simple(m)
  {
  }

  lemma OtherIsCanonical(m: Message)
    requires !(m.SessionList? || m.Gossip? || m.Hello? || m.Clipboard? || m.JoinReply?)
    ensures Canon(m) == m
  {
  }
}
