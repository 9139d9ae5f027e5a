/** The client object: its session flags, the connection set-up and
    tear-down, the marker publication, the image sends (ungated and
    marker-gated) and the receiver's decision after a connection is lost.
    Name resolution, the TCP connect and thread creation are inputs. */
module Client {
  import opened Bytes
  import opened Protocol
  import opened Wire
  import opened Markers
  import Transport

  /** `receivers` counts the receiver threads started so far. */
  datatype Session = Session(
    socketOpen: bool,
    terminated: bool,
    autoReconnect: bool,
    reconnecting: bool,
    hostIp: seq<byte>,
    port: int32,
    clientId: Name,
    receivers: nat)

  /** `imageNameIndex` is this client's stand-in for the process-wide counter
      behind automatic image names. */
  datatype Client = Client(session: Session, table: Table, imageNameIndex: nat)

  function NewClient(clientId: Name): (c: Client)
    ensures !c.session.socketOpen && !c.session.terminated
    ensures !c.session.autoReconnect && !c.session.reconnecting
    ensures c.session.clientId == clientId && c.session.receivers == 0
    ensures c.table.markers == [] && c.table.autoSync && c.imageNameIndex == 0
  {
    Client(Session(false, false, false, false, [], 0, clientId, 0), NewTable(), 0)
  }

  /** What the operating system answers: the address a host and port
      resolve to (none when start-up or resolution fails), whether some
      resolved address accepts the connection, and whether a new thread can
      be created. */
  datatype Network = Network(
    resolve: (seq<byte>, int32) -> Option<seq<byte>>,
    connects: bool,
    threadStarts: bool)

  /* ---------------- connecting ---------------- */

  datatype Connect = Connect(ok: bool, session: Session, wire: seq<byte>)

  /** The host handed to the resolver: the caller's host when it is
      non-empty and fits the 512-byte buffer with its NUL, else the empty
      name (the local machine). */
  function ResolverHost(host: seq<byte>): (h: seq<byte>)
    ensures 0 < |host| < 511 ==> h == host
    ensures !(0 < |host| < 511) ==> h == []
  {
    if 0 < |host| < 511 then host else []
  }

  /** `StartConnectionToHost`: clears the termination flag; an open socket
      is success with nothing sent; a reserved port (<= 1024) fails; a
      resolved and accepted connection sends the handshake, caches the
      resolved address and the port, and starts a receiver unless this is a
      reconnection. */
  function StartConnectionToHost(s: Session, host: seq<byte>, port: int32, net: Network): (r: Connect)
    ensures !r.session.terminated
    ensures r.ok <==>
      s.socketOpen || (port > 1024 && net.resolve(ResolverHost(host), port).Some? && net.connects)
    ensures s.socketOpen ==> r.session == s.(terminated := false) && r.wire == []
    ensures !r.ok ==> r.session == s.(terminated := false) && r.wire == [] && !r.session.socketOpen
    ensures r.ok && !s.socketOpen ==>
      && r.session.socketOpen
      && Some(r.session.hostIp) == net.resolve(ResolverHost(host), port)
      && r.session.port == port
      && DecodeHandShake(r.wire) == Some((s.clientId, []))
    ensures r.session.receivers ==
      s.receivers + (if r.ok && !s.socketOpen && !s.reconnecting && net.threadStarts then 1 else 0)
    ensures r.session.clientId == s.clientId && r.session.autoReconnect == s.autoReconnect
    ensures r.session.reconnecting == s.reconnecting
  {
    var s1 := s.(terminated := false);
    if s1.socketOpen then Connect(true, s1, [])
    else if port <= 1024 then Connect(false, s1, [])
    else
      match net.resolve(ResolverHost(host), port)
      case None => Connect(false, s1, [])
      case Some(address) =>
        if !net.connects then Connect(false, s1, [])
        else
          var spawn := !s1.reconnecting && net.threadStarts;
          var s2 := s1.(socketOpen := true, hostIp := address, port := port,
                        receivers := s1.receivers + if spawn then 1 else 0);
          HandShakeRoundTrip(s.clientId, []);
          assert EncodeHandShake(s.clientId) + [] == EncodeHandShake(s.clientId);
          Connect(true, s2, EncodeHandShake(s.clientId))
  }

  /** `StartConnection`: the local machine on the default port. */
  function StartConnection(s: Session, net: Network): (r: Connect)
    ensures r.ok <==> s.socketOpen || (net.resolve([], ServerPort).Some? && net.connects)
    ensures r.ok && !s.socketOpen ==> r.session.port == ServerPort
  {
    StartConnectionToHost(s, [], ServerPort, net)
  }

  /** A second connect on a connected session succeeds and sends nothing. */
  lemma ConnectTwice(s: Session, host: seq<byte>, port: int32, net: Network)
    ensures var r := StartConnectionToHost(s, host, port, net);
            r.ok ==> var r2 := StartConnectionToHost(r.session, host, port, net);
                     r2.ok && r2.wire == [] && r2.session == r.session
  {
  }

  /** A failed connect starts nothing and leaves the session disconnected. */
  lemma FailedConnectStartsNothing(s: Session, host: seq<byte>, port: int32, net: Network)
    requires !s.socketOpen
    ensures var r := StartConnectionToHost(s, host, port, net);
            !r.ok ==> !r.session.socketOpen && r.session.receivers == s.receivers && r.wire == []
  {
  }

  /** `EndConnection`: sets the termination flag, forgets the cached host and
      port, and closes the socket if one is open. */
  function EndConnection(s: Session): (r: Session)
    ensures r.terminated && !r.socketOpen && r.hostIp == [] && r.port == 0
    ensures r.autoReconnect == s.autoReconnect && r.reconnecting == s.reconnecting
    ensures r.clientId == s.clientId && r.receivers == s.receivers
  {
    s.(terminated := true, hostIp := [], port := 0, socketOpen := false)
  }

  lemma EndConnectionIdempotent(s: Session)
    ensures EndConnection(EndConnection(s)) == EndConnection(s)
  {
  }

  function EnableAutoReconnect(s: Session): (r: Session)
    ensures r.autoReconnect && r == s.(autoReconnect := true)
  {
    s.(autoReconnect := true)
  }

  function DisableAutoReconnect(s: Session): (r: Session)
    ensures !r.autoReconnect && r == s.(autoReconnect := false)
  {
    s.(autoReconnect := false)
  }

  /* ---------------- marker publication ---------------- */

  /** `SendMarkersToPicoPixel`: nothing when disconnected, else the whole
      table, deleted slots included, as one marker-sync frame. */
  function SendMarkersToPicoPixel(c: Client): (w: seq<byte>)
    ensures !c.session.socketOpen ==> w == []
    ensures c.session.socketOpen ==> DecodeMarkerFrame(w) == Some((RecordsOf(c.table.markers), []))
    ensures c.session.socketOpen ==> SniffMarkerFrame(w)
  {
    if !c.session.socketOpen then []
    else
      var ms := c.table.markers;
      MarkerFrameRoundTrip(ms, []);
      SniffAcceptsMarkerFrame(ms);
      assert EncodeMarkerFrame(ms) + [] == EncodeMarkerFrame(ms);
      EncodeMarkerFrame(ms)
  }

  /** The frame depends on the connection state and the table only. */
  lemma SendMarkersSeesOnlyTable(c: Client, c': Client)
    ensures c.session.socketOpen == c'.session.socketOpen && c.table == c'.table ==>
      SendMarkersToPicoPixel(c) == SendMarkersToPicoPixel(c')
  {
  }

  /** `DeleteAllAddMarkers`: empties the table and publishes the empty table. */
  function DeleteAllAddMarkers(c: Client): (r: (Client, seq<byte>))
    ensures r.0.table.markers == [] && r.0.table.autoSync == c.table.autoSync
    ensures r.0.session == c.session && r.0.imageNameIndex == c.imageNameIndex
    ensures c.session.socketOpen ==> DecodeMarkerFrame(r.1) == Some(([], []))
    ensures !c.session.socketOpen ==> r.1 == []
  {
    var c' := c.(table := ClearMarkers(c.table));
    (c', SendMarkersToPicoPixel(c'))
  }

  /* ---------------- a run of unchecked sends ---------------- */

  /** Where a run of `SendRaw` calls failed: the call, and how many of its
      bytes had gone out. */
  datatype SendFault = SendFault(call: nat, bytesOut: nat)

  lemma Flatten4(a: seq<byte>, b: seq<byte>, c: seq<byte>, d: seq<byte>)
    ensures Flatten([a, b, c, d]) == a + b + c + d
  {
    assert [a] == [] + [a];
    FlattenAppend([], a);
    assert [a, b] == [a] + [b];
    FlattenAppend([a], b);
    assert [a, b, c] == [a, b] + [c];
    FlattenAppend([a, b], c);
    assert [a, b, c, d] == [a, b, c] + [d];
    FlattenAppend([a, b, c], d);
  }

  /** A run of `SendRaw` calls that stops at the first failure. Each call
      either puts all its bytes out or fails having put out a strict prefix
      of them (the contract of `Transport.SendRaw`). */
  function Emit(pieces: seq<seq<byte>>, fault: Option<SendFault>): (r: (bool, seq<byte>))
    requires forall k :: 0 <= k < |pieces| ==> |pieces[k]| > 0
    ensures r.0 <==> fault.None? || fault.value.call >= |pieces|
    ensures r.0 ==> r.1 == Flatten(pieces)
    ensures !r.0 ==> r.1 < Flatten(pieces)
  {
    if fault.None? || fault.value.call >= |pieces| then (true, Flatten(pieces))
    else
      var i := fault.value.call;
      var out := Transport.Min(fault.value.bytesOut, |pieces[i]| - 1);
      EmitStopsShort(pieces, i, out);
      (false, Flatten(pieces[..i]) + pieces[i][..out])
  }

  /** Every outcome `Transport.SendRaw` allows for a failing call (a strict
      prefix of its buffer put out) is an outcome of `Emit`, named by the
      call and the length of that prefix. */
  lemma EmitCoversSendRawFailure(pieces: seq<seq<byte>>, i: nat, out: seq<byte>)
    requires forall k :: 0 <= k < |pieces| ==> |pieces[k]| > 0
    requires i < |pieces| && out < pieces[i]
    ensures Emit(pieces, Some(SendFault(i, |out|))) == (false, Flatten(pieces[..i]) + out)
  {
    assert pieces[i][..|out|] == out;
  }

  lemma EmitStopsShort(pieces: seq<seq<byte>>, i: nat, out: nat)
    requires i < |pieces| && out < |pieces[i]|
    ensures Flatten(pieces[..i]) + pieces[i][..out] < Flatten(pieces)
  {
    assert pieces[..i + 1] == pieces[..i] + [pieces[i]];
    FlattenAppend(pieces[..i], pieces[i]);
    FlattenPrefix(pieces, i + 1);
    assert pieces[i][..out] < pieces[i];
  }

  /* ---------------- image sends ---------------- */

  /** The arguments of the ungated `PixelPrintf`; `data` is `None` for a null pointer. */
  datatype ImageRequest = ImageRequest(
    name: Name,
    format: int32,
    width: int32,
    height: int32,
    pitch: int32,
    srgb: int32,
    upsideDown: int32,
    data: Option<seq<byte>>)

  /** The argument checks the send makes before any I/O. */
  predicate ValidRequest(q: ImageRequest)
  {
    q.width > 0 && q.height > 0 && q.pitch > 0 && q.data.Some?
  }

  /** What the caller must guarantee for a request that passes the checks:
      `pitch * height` fits an int and the buffer holds that many bytes. */
  predicate RequestFits(q: ImageRequest)
  {
    ValidRequest(q) ==>
      PixelCount(q.pitch, q.height) <= Int32Max && |q.data.value| >= PixelCount(q.pitch, q.height)
  }

  /** The header the send fills in. */
  function ImageHeaderFor(q: ImageRequest): (h: PixelInfoHeader)
    ensures h.prefix == NewPixelInfoHeader().prefix
    ensures h.width == q.width && h.height == q.height && h.pitch == q.pitch
    ensures h.pixelFormat == q.format && h.srgb == q.srgb && h.upsideDown == q.upsideDown
  {
    PixelInfoHeader(NewPrefix(ImagePackage), q.width, q.height, q.pitch, q.format, q.srgb, q.upsideDown)
  }

  const AutoNamePrefix: seq<byte> := Ascii("Pixel-PrintF-Image")

  /** The name that travels, and the counter after the send: an empty name
      becomes the fixed prefix and the counter's decimal numeral, and only
      then does the counter advance. */
  function ImageName(name: Name, counter: nat): (r: (Name, nat))
    requires counter <= Int32Max
    ensures |name| > 0 ==> r == (name, counter)
    ensures |name| == 0 ==> r.1 == counter + 1 && r.0 == AutoNamePrefix + Decimal(counter)
  {
    if |name| > 0 then (name, counter)
    else
      DecimalOfInt32(counter);
      (AutoNamePrefix + Decimal(counter), counter + 1)
  }

  /** Automatic names drawn at different counter values differ. */
  lemma AutoNamesDistinct(a: nat, b: nat)
    requires a <= Int32Max && b <= Int32Max && a != b
    ensures ImageName([], a).0 != ImageName([], b).0
  {
    var na, nb := ImageName([], a).0, ImageName([], b).0;
    if na == nb {
      assert na[|AutoNamePrefix|..] == Decimal(a);
      assert nb[|AutoNamePrefix|..] == Decimal(b);
      DecimalInjective(a, b);
    }
  }

  /** The frame a validated request describes. */
  function FrameOf(q: ImageRequest, name: Name): (f: ImageFrame)
    requires ValidRequest(q) && RequestFits(q)
    ensures WellFormedImage(f)
    ensures f.name == name && f.header == ImageHeaderFor(q) && f.pixels <= q.data.value
    ensures DecodeImageFrame(EncodeImageFrame(f)) == Some((f, []))
  {
    var f := ImageFrame(ImageHeaderFor(q), name, q.data.value[..PixelCount(q.pitch, q.height)]);
    ImageFrameRoundTrip(f, []);
    assert EncodeImageFrame(f) + [] == EncodeImageFrame(f);
    f
  }

  lemma ImageFrameSends(f: ImageFrame)
    ensures EncodeImageFrame(f) == EncodeImageHeader(f.header) + I32(|f.name| + 1) + (f.name + [0]) + f.pixels
  {
    assert EncodeString(f.name) == I32(|f.name| + 1) + (f.name + [0]);
  }

  /** The four sends of an image frame: header, name size, name with its
      NUL, pixels. */
  function ImagePieces(f: ImageFrame): (pieces: seq<seq<byte>>)
    requires WellFormedImage(f)
    ensures |pieces| == 4
    ensures forall k :: 0 <= k < |pieces| ==> |pieces[k]| > 0
    ensures Flatten(pieces) == EncodeImageFrame(f)
  {
    var h, n, s, p := EncodeImageHeader(f.header), I32(|f.name| + 1), f.name + [0], f.pixels;
    Flatten4(h, n, s, p);
    ImageFrameSends(f);
    [h, n, s, p]
  }

  datatype Sent = Sent(ok: bool, client: Client, wire: seq<byte>)

  /** The ungated `PixelPrintf`: disconnected, non-positive dimensions or a
      null buffer fail before any I/O; otherwise four sends go out — the
      40-byte header, the name size, the name with its NUL, then
      `pitch * height` pixel bytes — and the first failing one ends the call. */
  function PixelPrintf(c: Client, q: ImageRequest, fault: Option<SendFault>): (r: Sent)
    requires c.imageNameIndex <= Int32Max
    requires RequestFits(q)
    ensures !c.session.socketOpen || !ValidRequest(q) ==> r == Sent(false, c, [])
    ensures r.client.session == c.session && r.client.table == c.table
    ensures c.session.socketOpen && ValidRequest(q) && |q.name| == 0 ==>
      r.client.imageNameIndex == c.imageNameIndex + 1
    ensures !(c.session.socketOpen && ValidRequest(q) && |q.name| == 0) ==>
      r.client.imageNameIndex == c.imageNameIndex
    ensures r.ok ==> c.session.socketOpen && ValidRequest(q)
    ensures c.session.socketOpen && ValidRequest(q) ==> (r.ok <==> fault.None? || fault.value.call >= 4)
    ensures r.ok ==>
      var f := FrameOf(q, ImageName(q.name, c.imageNameIndex).0);
      r.wire == EncodeImageFrame(f) && DecodeImageFrame(r.wire) == Some((f, []))
    ensures !r.ok && c.session.socketOpen && ValidRequest(q) ==>
      r.wire < EncodeImageFrame(FrameOf(q, ImageName(q.name, c.imageNameIndex).0))
  {
    if !c.session.socketOpen || !ValidRequest(q) then Sent(false, c, [])
    else
      var (name, counter) := ImageName(q.name, c.imageNameIndex);
      var f := FrameOf(q, name);
      var (ok, wire) := Emit(ImagePieces(f), fault);
      Sent(ok, c.(imageNameIndex := counter), wire)
  }

  /** The marker-gated `PixelPrintf`: the gate either fails with nothing
      changed and nothing sent, or takes one use BEFORE the send, which keeps
      the decrement even when the send then fails. */
  function GatedPixelPrintf(c: Client, i: int, q: ImageRequest, fault: Option<SendFault>): (r: Sent)
    requires 0 <= i
    requires c.imageNameIndex <= Int32Max
    requires RequestFits(q)
    ensures !GatedTake(c.table, i).0 ==> r == Sent(false, c, [])
    ensures GatedTake(c.table, i).0 ==>
      && r.client.table == GatedTake(c.table, i).1
      && MarkerUseCount(r.client.table, i) == MarkerUseCount(c.table, i) - 1
      && r == PixelPrintf(c.(table := r.client.table), q, fault)
    ensures r.ok ==> GatedTake(c.table, i).0 && c.session.socketOpen && ValidRequest(q)
  {
    var (pass, t') := GatedTake(c.table, i);
    if !pass then Sent(false, c, [])
    else PixelPrintf(c.(table := t'), q, fault)
  }

  /** A marker with one use lets one send through and then blocks the next,
      which sends nothing. */
  lemma GatedOneUse(c: Client, i: int, q: ImageRequest)
    requires 0 <= i < |c.table.markers| && c.table.markers[i].useCount == 1
    requires c.imageNameIndex < Int32Max && RequestFits(q)
    requires c.session.socketOpen && ValidRequest(q)
    ensures var r1 := GatedPixelPrintf(c, i, q, None);
            && r1.ok && MarkerUseCount(r1.client.table, i) == 0
            && var r2 := GatedPixelPrintf(r1.client, i, q, None);
               !r2.ok && r2.wire == [] && r2.client == r1.client
  {
  }

  /** `ImageInfo` as the caller fills it: unsigned dimensions. */
  datatype ImageInfo = ImageInfo(
    format: PixelFormat,
    width: uint32,
    height: uint32,
    pitch: uint32,
    size: uint32,
    srgb: int32,
    upsideDown: int32,
    name: Name)

  /** The arguments the `ImageInfo` overload forwards: the unsigned
      dimensions become signed ints, and `size` is dropped. */
  function RequestOf(info: ImageInfo, data: Option<seq<byte>>): (q: ImageRequest)
    ensures q.width == FromUnsigned(info.width) && q.height == FromUnsigned(info.height)
    ensures q.pitch == FromUnsigned(info.pitch) && FormatOfCode(q.format) == Some(info.format)
    ensures q.name == info.name && q.data == data
  {
    ImageRequest(info.name, FormatCode(info.format), FromUnsigned(info.width), FromUnsigned(info.height),
                 FromUnsigned(info.pitch), info.srgb, info.upsideDown, data)
  }

  function PixelPrintfInfo(c: Client, info: ImageInfo, data: Option<seq<byte>>, fault: Option<SendFault>)
    : (r: Sent)
    requires c.imageNameIndex <= Int32Max
    requires RequestFits(RequestOf(info, data))
    ensures info.width > Int32Max || info.height > Int32Max || info.pitch > Int32Max ==>
      r == Sent(false, c, [])
  {
    PixelPrintf(c, RequestOf(info, data), fault)
  }

  /** The `size` field never reaches the wire. */
  lemma InfoSizeIgnored(c: Client, info: ImageInfo, n: uint32, data: Option<seq<byte>>, fault: Option<SendFault>)
    requires c.imageNameIndex <= Int32Max
    requires RequestFits(RequestOf(info, data))
    ensures PixelPrintfInfo(c, info.(size := n), data, fault) == PixelPrintfInfo(c, info, data, fault)
  {
    assert RequestOf(info.(size := n), data) == RequestOf(info, data);
  }

  function GatedPixelPrintfInfo(c: Client, i: int, info: ImageInfo, data: Option<seq<byte>>,
                                fault: Option<SendFault>): (r: Sent)
    requires 0 <= i
    requires c.imageNameIndex <= Int32Max
    requires RequestFits(RequestOf(info, data))
    ensures !GatedTake(c.table, i).0 ==> r == Sent(false, c, [])
    ensures GatedTake(c.table, i).0 ==> r == PixelPrintfInfo(c.(table := GatedTake(c.table, i).1), info, data, fault)
  {
    GatedPixelPrintf(c, i, RequestOf(info, data), fault)
  }

  /* ---------------- receiving ---------------- */

  /** What the receiver made of the bytes waiting on the socket. */
  datatype Received = NotMarkerFrame | MarkerFrame(records: seq<ViewerRecord>, end: LoopEnd)

  /** The receiver's parse: a frame whose signature and type say marker-sync
      has its 20-byte header read, then up to `marker_count` records; any
      other frame is drained. */
  function ParseIncoming(bs: seq<byte>): (r: Received)
    ensures r.MarkerFrame? <==> |bs| >= 20 && SniffMarkerFrame(bs)
    ensures r.MarkerFrame? ==> forall k :: 0 <= k < |r.records| ==> ViewerRecordOk(r.records[k])
  {
    if |bs| < 20 || !SniffMarkerFrame(bs) then NotMarkerFrame
    else
      var count := ReadI32(bs[16..]).value.0;
      var (recs, end) := ReadViewerRecords(bs[20..], if count < 0 then 0 else count);
      MarkerFrame(recs, end)
  }

  /** The received records address existing positions or past the end only. */
  predicate IndicesNonNegative(r: Received)
  {
    r.MarkerFrame? ==> forall k :: 0 <= k < |r.records| ==> r.records[k].index >= 0
  }

  function UpdatesOf(recs: seq<ViewerRecord>): (u: seq<(int32, int32)>)
    ensures |u| == |recs|
    ensures forall k :: 0 <= k < |recs| ==> u[k] == (recs[k].index, recs[k].useCount)
  {
    seq(|recs|, k requires 0 <= k < |recs| => (recs[k].index, recs[k].useCount))
  }

  /** The receiver's effect on the table: each record read is applied in
      turn, and a record that cannot be read ends the frame, keeping the
      records before it. A record that throws ends the process: there is no
      table after it (`None`). */
  function ReceiveFrame(t: Table, bs: seq<byte>): (r: Option<Table>)
    requires IndicesNonNegative(ParseIncoming(bs))
    ensures r.None? <==> ParseIncoming(bs).MarkerFrame? && ParseIncoming(bs).end == Thrown
    ensures r.Some? ==> r.value.autoSync == t.autoSync && |r.value.markers| == |t.markers|
    ensures ParseIncoming(bs).NotMarkerFrame? ==> r == Some(t)
  {
    match ParseIncoming(bs)
    case NotMarkerFrame => Some(t)
    case MarkerFrame(recs, end) =>
      if end == Thrown then None else Some(ApplySyncRecords(t, UpdatesOf(recs)))
  }

  /** A marker-sync frame as the viewer lays it out: the prefix, the count,
      and three-int records. */
  function ViewerFrame(rs: seq<ViewerRecord>): (bs: seq<byte>)
    requires |rs| <= Int32Max
    ensures |bs| >= 20
  {
    EncodePrefix(NewPrefix(MarkerPackage)) + (I32(|rs|) + EncodeViewerRecords(rs))
  }

  /** Past a marker-sync prefix, the receiver reads the count and then that
      many records. */
  lemma ParseMarkerBody(bs: seq<byte>, n: int32, body: seq<byte>)
    requires |bs| >= 20 && SniffMarkerFrame(bs)
    requires 0 <= n && bs[16..] == I32(n) + body
    ensures ParseIncoming(bs) == MarkerFrame(ReadViewerRecords(body, n).0, ReadViewerRecords(body, n).1)
  {
    ReadI32RoundTrip(n, body);
    assert bs[20..] == bs[16..][4..] == body;
  }

  /** A viewer frame passes the sniff and carries its count at offset 16. */
  lemma ViewerFrameHead(rs: seq<ViewerRecord>)
    requires |rs| <= Int32Max
    ensures SniffMarkerFrame(ViewerFrame(rs))
    ensures ViewerFrame(rs)[16..] == I32(|rs|) + EncodeViewerRecords(rs)
  {
    SniffPrefix(NewPrefix(MarkerPackage), I32(|rs|) + EncodeViewerRecords(rs));
  }

  lemma ViewerRecordsReadBack(rs: seq<ViewerRecord>)
    requires ViewerRecordsFit(rs, [])
    ensures ReadViewerRecords(EncodeViewerRecords(rs), |rs|) == (rs, AllRead)
  {
    ReadViewerRecordsRoundTrip(rs, []);
    assert EncodeViewerRecords(rs) + [] == EncodeViewerRecords(rs);
  }

  /** The receiver reads back every record of a viewer frame, the last one
      even when the frame ends inside its name. */
  lemma ParseViewerFrame(rs: seq<ViewerRecord>)
    requires |rs| <= Int32Max
    requires ViewerRecordsFit(rs, [])
    ensures ParseIncoming(ViewerFrame(rs)) == MarkerFrame(rs, AllRead)
  {
    ViewerFrameHead(rs);
    ViewerRecordsReadBack(rs);
    ParseMarkerBody(ViewerFrame(rs), |rs|, EncodeViewerRecords(rs));
  }

  /** A viewer frame is applied to the table record by record. */
  lemma ReceiveViewerFrame(t: Table, rs: seq<ViewerRecord>)
    requires |rs| <= Int32Max
    requires ViewerRecordsFit(rs, [])
    requires forall k :: 0 <= k < |rs| ==> rs[k].index >= 0
    ensures IndicesNonNegative(ParseIncoming(ViewerFrame(rs)))
    ensures ReceiveFrame(t, ViewerFrame(rs)) == Some(ApplySyncRecords(t, UpdatesOf(rs)))
  {
    ParseViewerFrame(rs);
  }

  /** A frame that ends three bytes into a five-byte name still updates the
      table: in auto-sync mode, marker 0 takes the use count 10. */
  lemma ReceiveShortName(t: Table)
    requires t.autoSync && |t.markers| > 0
    ensures var bs := ViewerFrame([ViewerRecord(0, 10, 5, [97, 98, 99])]);
            IndicesNonNegative(ParseIncoming(bs))
            && ReceiveFrame(t, bs).Some?
            && MarkerUseCount(ReceiveFrame(t, bs).value, 0) == 10
            && ReceiveFrame(t, bs).value.markers[0].pending == NoPendingUpdate
  {
    var rs := [ViewerRecord(0, 10, 5, [97, 98, 99])];
    ReceiveViewerFrame(t, rs);
    assert UpdatesOf(rs) == [(0, 10)];
    var t1 := ApplySyncRecord(t, 0, 10);
    assert ApplySyncRecords(t, [(0, 10)]) == ApplySyncRecords(t1, []);
  }

  /** A first record declaring a negative name size ends the process, not
      just the frame. */
  lemma ReceiveNegativeNameSize(t: Table, r: ViewerRecord)
    requires r.nameSize < 0
    ensures IndicesNonNegative(ParseIncoming(ViewerFrame([r])))
    ensures ReceiveFrame(t, ViewerFrame([r])) == None
  {
    ViewerFrameHead([r]);
    assert EncodeViewerRecords([r]) == EncodeViewerRecord(r) + [];
    ReadViewerRecordThrows(r, []);
    ParseMarkerBody(ViewerFrame([r]), 1, EncodeViewerRecords([r]));
  }

  /** How the receiver goes on after its read loop ends. */
  datatype Decision = RunAgain | Stop

  datatype AfterLoop = AfterLoop(decision: Decision, client: Client, wire: seq<byte>)

  /** The receiver after losing its connection: with auto-reconnect on and no
      client-side termination it reconnects to the cached host (the default
      port when none is cached), republishes the markers on success, and runs
      again whether or not the attempt succeeded; otherwise it stops. */
  function ReceiverAfterLoop(c: Client, net: Network): (r: AfterLoop)
    ensures r.decision == Stop <==> !(c.session.autoReconnect && !c.session.terminated)
    ensures r.decision == Stop ==>
      r.wire == [] && r.client == c.(session := c.session.(reconnecting := false))
    ensures r.decision == RunAgain ==> r == Reconnect(c, net)
    ensures r.client.session.receivers == c.session.receivers
    ensures r.client.table == c.table && r.client.imageNameIndex == c.imageNameIndex
  {
    var s := c.session;
    if s.autoReconnect && !s.terminated then Reconnect(c, net)
    else AfterLoop(Stop, c.(session := s.(reconnecting := false)), [])
  }

  /** The session a reconnection starts from: marked as reconnecting, with
      the default port when no host is cached. */
  function ReconnectingSession(s: Session): (r: Session)
    ensures r.reconnecting && r.socketOpen == s.socketOpen && r.hostIp == s.hostIp
    ensures r.port == if |s.hostIp| == 0 then ServerPort else s.port
    ensures r.receivers == s.receivers && r.clientId == s.clientId && r.autoReconnect == s.autoReconnect
  {
    s.(reconnecting := true, port := if |s.hostIp| == 0 then ServerPort else s.port)
  }

  /** One reconnection attempt; the receiver runs again whatever its outcome,
      and only a success republishes the markers and clears the flag. */
  function Reconnect(c: Client, net: Network): (r: AfterLoop)
    ensures r.decision == RunAgain && !r.client.session.terminated
    ensures r.client.session.receivers == c.session.receivers
    ensures r.client.table == c.table && r.client.imageNameIndex == c.imageNameIndex
    ensures c.session.socketOpen ==> r.wire == SendMarkersToPicoPixel(c) && !r.client.session.reconnecting
    ensures r.client.session.socketOpen <==> !r.client.session.reconnecting
  {
    var s1 := ReconnectingSession(c.session);
    var conn := StartConnectionToHost(s1, s1.hostIp, s1.port, net);
    if conn.ok then
      var c2 := c.(session := conn.session);
      SendMarkersSeesOnlyTable(c, c2);
      assert c.session.socketOpen ==> conn.wire == [];
      AfterLoop(RunAgain, c2.(session := conn.session.(reconnecting := false)),
                conn.wire + SendMarkersToPicoPixel(c2))
    else AfterLoop(RunAgain, c.(session := conn.session), [])
  }

  /** A successful reconnection from a closed socket sends the handshake and
      then the whole marker table. */
  lemma ReconnectRepublishes(c: Client, net: Network)
    requires c.session.autoReconnect && !c.session.terminated && !c.session.socketOpen
    requires var s := c.session;
             var port := if |s.hostIp| == 0 then ServerPort else s.port;
             port > 1024 && net.resolve(ResolverHost(s.hostIp), port).Some? && net.connects
    ensures var r := ReceiverAfterLoop(c, net);
            r.decision == RunAgain && r.client.session.socketOpen && !r.client.session.reconnecting
            && (exists hs, ms :: r.wire == hs + ms
                  && DecodeHandShake(hs) == Some((c.session.clientId, []))
                  && DecodeMarkerFrame(ms) == Some((RecordsOf(c.table.markers), [])))
  {
    var s1 := ReconnectingSession(c.session);
    var conn := StartConnectionToHost(s1, s1.hostIp, s1.port, net);
    var c2 := c.(session := conn.session);
    SendMarkersSeesOnlyTable(c2, c.(session := c.session.(socketOpen := true)));
    assert Reconnect(c, net).wire == conn.wire + SendMarkersToPicoPixel(c2);
  }

  /** A failed reconnection does not end the receiver: it keeps the
      reconnecting flag and runs again. */
  lemma FailedReconnectRunsAgain(c: Client, net: Network)
    requires c.session.autoReconnect && !c.session.terminated && !c.session.socketOpen
    requires !net.connects
    ensures var r := ReceiverAfterLoop(c, net);
            r.decision == RunAgain && r.wire == [] && r.client.session.reconnecting
            && !r.client.session.socketOpen
  {
  }

  /** A socket dropped by a read error but never closed still counts as
      connected: the "reconnection" sends no handshake and republishes the
      markers on the old socket. */
  lemma StaleSocketReconnect(c: Client, net: Network)
    requires c.session.autoReconnect && !c.session.terminated && c.session.socketOpen
    ensures var r := ReceiverAfterLoop(c, net);
            r.decision == RunAgain && r.wire == SendMarkersToPicoPixel(c)
  {
  }

  /** After `EndConnection` the receiver stops. */
  lemma EndConnectionStopsReceiver(c: Client, net: Network)
    ensures ReceiverAfterLoop(c.(session := EndConnection(c.session)), net).decision == Stop
  {
  }
}
