/** The bytes the client puts on the wire: the handshake, the
    length-prefixed string, the image frame and the marker-sync frame, each
    with the decoder for exactly the layout the sender emits. Every struct is
    a packed sequence of host-order 4-byte ints (see `Bytes.EncodeWords`). */
module Wire {
  import opened Bytes
  import opened Protocol

  /* ---------------- common prefix ---------------- */

  function PrefixWords(p: Prefix): (ws: seq<int32>)
    ensures |ws| == 4
  {
    [p.magic, p.payloadType, p.version, p.isBigEndian]
  }

  function EncodePrefix(p: Prefix): (r: seq<byte>)
    ensures |r| == 16
  {
    EncodeWords(PrefixWords(p))
  }

  /** The prefix is magic, payload type, version and endianness flag, four
      bytes each, in that order. */
  lemma PrefixLayout(p: Prefix)
    ensures EncodePrefix(p) == I32(p.magic) + I32(p.payloadType) + I32(p.version) + I32(p.isBigEndian)
  {
    var ws := PrefixWords(p);
    assert ws == [p.magic] + [p.payloadType] + [p.version] + [p.isBigEndian];
    EncodeWordsAppend([p.magic] + [p.payloadType] + [p.version], [p.isBigEndian]);
    EncodeWordsAppend([p.magic] + [p.payloadType], [p.version]);
    EncodeWordsAppend([p.magic], [p.payloadType]);
    EncodeOneWord(p.magic);
    EncodeOneWord(p.payloadType);
    EncodeOneWord(p.version);
    EncodeOneWord(p.isBigEndian);
  }

  /** Every prefix a header constructor builds: the signature, the header's
      own payload type, version 1 and the little-endian flag 0. */
  lemma NewPrefixBytes(t: PackageType)
    ensures EncodePrefix(NewPrefix(t)) ==
      I32(0x5049434F) + I32(PackageCode(t)) + I32(1) + I32(0)
  {
    PrefixLayout(NewPrefix(t));
  }

  function DecodePrefix(bs: seq<byte>): (r: Option<(Prefix, seq<byte>)>)
    ensures r.Some? <==> |bs| >= 16
  {
    match ReadWords(bs, 4)
    case None => None
    case Some((ws, rest)) => Some((Prefix(ws[0], ws[1], ws[2], ws[3]), rest))
  }

  lemma PrefixRoundTrip(p: Prefix, rest: seq<byte>)
    ensures DecodePrefix(EncodePrefix(p) + rest) == Some((p, rest))
  {
    ReadWordsRoundTrip(PrefixWords(p), rest);
  }

  /* ---------------- length-prefixed string ---------------- */

  /** `SendString`: the length counting the NUL, then the bytes, then the NUL. */
  function EncodeString(s: Name): (r: seq<byte>)
    ensures |r| == 4 + |s| + 1
    ensures r[4 + |s|] == 0
  {
    I32(|s| + 1) + s + [0]
  }

  /** Reads a string whose length field counts its terminating NUL. */
  function ReadString(bs: seq<byte>): (r: Option<(Name, seq<byte>)>)
    ensures r.Some? ==> |r.value.1| < |bs|
  {
    match ReadI32(bs)
    case None => None
    case Some((size, rest)) =>
      if 1 <= size <= |rest| && rest[size - 1] == 0 then
        var s: Name := rest[..size - 1];
        Some((s, rest[size..]))
      else None
  }

  lemma ReadStringRoundTrip(s: Name, rest: seq<byte>)
    ensures ReadString(EncodeString(s) + rest) == Some((s, rest))
  {
    var tail := s + [0] + rest;
    assert EncodeString(s) + rest == I32(|s| + 1) + tail;
    ReadI32RoundTrip(|s| + 1, tail);
    assert tail[..|s|] == s;
    assert tail[|s| + 1..] == rest;
  }

  /* ---------------- handshake ---------------- */

  /** The header `HandShake` fills in: its size counts the identifier's NUL,
      unlike the field's own comment, which says it does not. */
  function HandShakeHeaderFor(clientId: Name): (h: HandShakeHeader)
    ensures h.size == |clientId| + 1
    ensures h.prefix == NewHandShakeHeader().prefix
  {
    NewHandShakeHeader().(size := |clientId| + 1)
  }

  function HandShakeWords(h: HandShakeHeader): (ws: seq<int32>)
    ensures |ws| == 5
  {
    PrefixWords(h.prefix) + [h.size]
  }

  /** The handshake: a 20-byte header, then the identifier and its NUL. */
  function EncodeHandShake(clientId: Name): (r: seq<byte>)
    ensures |r| == 20 + |clientId| + 1
  {
    EncodeWords(HandShakeWords(HandShakeHeaderFor(clientId))) + clientId + [0]
  }

  /** The handshake is the handshake prefix followed by the identifier laid
      out exactly as a length-prefixed string. */
  lemma HandShakeLayout(clientId: Name)
    ensures EncodeHandShake(clientId) == EncodePrefix(NewPrefix(ClientHandshake)) + EncodeString(clientId)
  {
    var h := HandShakeHeaderFor(clientId);
    EncodeWordsAppend(PrefixWords(h.prefix), [h.size]);
    EncodeOneWord(h.size);
  }

  /** Reads a handshake frame: the prefix must carry the signature and the
      handshake type, and the identifier follows as a length-prefixed string
      ending in its NUL. */
  function DecodeHandShake(bs: seq<byte>): (r: Option<(Name, seq<byte>)>)
    ensures r.Some? ==> |bs| >= 16 && |r.value.1| < |bs| - 16
  {
    match DecodePrefix(bs)
    case None => None
    case Some((p, afterPrefix)) =>
      if p.magic != NetSignature || p.payloadType != PackageCode(ClientHandshake) then None
      else ReadString(afterPrefix)
  }

  lemma HandShakeRoundTrip(clientId: Name, rest: seq<byte>)
    ensures DecodeHandShake(EncodeHandShake(clientId) + rest) == Some((clientId, rest))
  {
    HandShakeLayout(clientId);
    var p := NewPrefix(ClientHandshake);
    assert EncodeHandShake(clientId) + rest == EncodePrefix(p) + (EncodeString(clientId) + rest);
    PrefixRoundTrip(p, EncodeString(clientId) + rest);
    ReadStringRoundTrip(clientId, rest);
  }

  /* ---------------- image frame ---------------- */

  function ImageFieldWords(h: PixelInfoHeader): (ws: seq<int32>)
    ensures |ws| == 6
  {
    [h.width, h.height, h.pitch, h.pixelFormat, h.srgb, h.upsideDown]
  }

  function ImageWords(h: PixelInfoHeader): (ws: seq<int32>)
    ensures |ws| == 10
  {
    PrefixWords(h.prefix) + ImageFieldWords(h)
  }

  function EncodeImageHeader(h: PixelInfoHeader): (r: seq<byte>)
    ensures |r| == 40
  {
    EncodeWords(ImageWords(h))
  }

  /** After the prefix the image header holds width, height, pitch,
      pixel_format, srgb and upside_down, in declaration order. */
  lemma ImageHeaderLayout(h: PixelInfoHeader)
    ensures EncodeImageHeader(h) ==
      EncodePrefix(h.prefix) + (I32(h.width) + (I32(h.height) + (I32(h.pitch)
        + (I32(h.pixelFormat) + (I32(h.srgb) + I32(h.upsideDown))))))
  {
    EncodeWordsAppend(PrefixWords(h.prefix), ImageFieldWords(h));
    var f := ImageFieldWords(h);
    var f1, f2, f3 := f[1..], f[2..], f[3..];
    var f4, f5 := f[4..], f[5..];
    assert f1[1..] == f2 && f2[1..] == f3 && f3[1..] == f4 && f4[1..] == f5;
    assert EncodeWords(f) == I32(h.width) + EncodeWords(f1);
    assert EncodeWords(f1) == I32(h.height) + EncodeWords(f2);
    assert EncodeWords(f2) == I32(h.pitch) + EncodeWords(f3);
    assert EncodeWords(f3) == I32(h.pixelFormat) + EncodeWords(f4);
    assert EncodeWords(f4) == I32(h.srgb) + EncodeWords(f5);
    assert f5 == [h.upsideDown];
    EncodeOneWord(h.upsideDown);
  }

  function DecodeImageHeader(bs: seq<byte>): (r: Option<(PixelInfoHeader, seq<byte>)>)
    ensures r.Some? <==> |bs| >= 40
  {
    match ReadWords(bs, 10)
    case None => None
    case Some((ws, rest)) =>
      Some((PixelInfoHeader(Prefix(ws[0], ws[1], ws[2], ws[3]), ws[4], ws[5], ws[6], ws[7], ws[8], ws[9]), rest))
  }

  lemma ImageHeaderRoundTrip(h: PixelInfoHeader, rest: seq<byte>)
    ensures DecodeImageHeader(EncodeImageHeader(h) + rest) == Some((h, rest))
  {
    ReadWordsRoundTrip(ImageWords(h), rest);
  }

  /** One image message: header, name, then the `pitch * height` pixel bytes. */
  datatype ImageFrame = ImageFrame(header: PixelInfoHeader, name: Name, pixels: seq<byte>)

  /** The size of an image body: pitch is the byte distance from a pixel to
      the one below it, so the body is `pitch * height` bytes. */
  function PixelCount(pitch: int32, height: int32): (n: nat)
    requires pitch > 0 && height > 0
    ensures n >= pitch && n >= height
  {
    pitch * height
  }

  /** What a sender that passed validation puts in an image frame. */
  predicate WellFormedImage(f: ImageFrame)
  {
    && f.header.prefix.magic == NetSignature
    && f.header.prefix.payloadType == PackageCode(ImagePackage)
    && f.header.width > 0 && f.header.height > 0 && f.header.pitch > 0
    && |f.pixels| == PixelCount(f.header.pitch, f.header.height)
  }

  /** The three writes of an image send: header, name, pixels. */
  function EncodeImageFrame(f: ImageFrame): (r: seq<byte>)
    ensures |r| == 40 + 4 + |f.name| + 1 + |f.pixels|
  {
    EncodeImageHeader(f.header) + EncodeString(f.name) + f.pixels
  }

  /** Reads an image frame; the pixel count comes from the header's pitch
      and height. */
  function DecodeImageFrame(bs: seq<byte>): (r: Option<(ImageFrame, seq<byte>)>)
    ensures r.Some? ==> WellFormedImage(r.value.0)
  {
    match DecodeImageHeader(bs)
    case None => None
    case Some((h, afterHeader)) =>
      if h.prefix.magic != NetSignature || h.prefix.payloadType != PackageCode(ImagePackage)
         || h.width <= 0 || h.height <= 0 || h.pitch <= 0
      then None
      else
        match ReadString(afterHeader)
        case None => None
        case Some((name, afterName)) =>
          var n := PixelCount(h.pitch, h.height);
          if |afterName| < n then None
          else Some((ImageFrame(h, name, afterName[..n]), afterName[n..]))
  }

  lemma ImageFrameRegroup(f: ImageFrame, rest: seq<byte>)
    ensures EncodeImageFrame(f) + rest == EncodeImageHeader(f.header) + (EncodeString(f.name) + (f.pixels + rest))
  {
  }

  /** The decoder's steps, in terms of what each step reads. */
  lemma DecodeImageFrameSteps(bs: seq<byte>, h: PixelInfoHeader, afterHeader: seq<byte>,
                              name: Name, pixels: seq<byte>, rest: seq<byte>)
    requires DecodeImageHeader(bs) == Some((h, afterHeader))
    requires WellFormedImage(ImageFrame(h, name, pixels))
    requires ReadString(afterHeader) == Some((name, pixels + rest))
    ensures DecodeImageFrame(bs) == Some((ImageFrame(h, name, pixels), rest))
  {
    assert (pixels + rest)[..|pixels|] == pixels;
    assert (pixels + rest)[|pixels|..] == rest;
  }

  lemma ImageFrameRoundTrip(f: ImageFrame, rest: seq<byte>)
    requires WellFormedImage(f)
    ensures DecodeImageFrame(EncodeImageFrame(f) + rest) == Some((f, rest))
  {
    var afterHeader := EncodeString(f.name) + (f.pixels + rest);
    ImageFrameRegroup(f, rest);
    ImageHeaderRoundTrip(f.header, afterHeader);
    ReadStringRoundTrip(f.name, f.pixels + rest);
    DecodeImageFrameSteps(EncodeImageFrame(f) + rest, f.header, afterHeader, f.name, f.pixels, rest);
  }

  /* ---------------- marker-sync frame ---------------- */

  /** The part of a marker that travels: the pending count stays local. */
  datatype MarkerRecord = MarkerRecord(index: int32, useCount: int32, color: uint32, name: Name)

  function RecordOf(m: Marker): (r: MarkerRecord)
    ensures r.index == m.index && r.useCount == m.useCount && r.color == m.color && r.name == m.name
  {
    MarkerRecord(m.index, m.useCount, m.color, m.name)
  }

  function RecordsOf(ms: seq<Marker>): (rs: seq<MarkerRecord>)
    ensures |rs| == |ms|
    ensures forall i :: 0 <= i < |ms| ==> rs[i] == RecordOf(ms[i])
  {
    seq(|ms|, i requires 0 <= i < |ms| => RecordOf(ms[i]))
  }

  /** One record as `SendMarkersToPicoPixel` writes it: index, use count,
      colour, then the name as a length-prefixed string (whose length counts
      the NUL, unlike the layout comment in the protocol header). */
  function EncodeRecord(r: MarkerRecord): (b: seq<byte>)
    ensures |b| == 12 + 4 + |r.name| + 1
  {
    I32(r.index) + I32(r.useCount) + U32(r.color) + EncodeString(r.name)
  }

  /** Total size of the names with their NULs. */
  function NameBytes(ms: seq<Marker>): (n: nat)
  {
    if |ms| == 0 then 0 else |ms[0].name| + 1 + NameBytes(ms[1..])
  }

  function EncodeRecords(ms: seq<Marker>): (b: seq<byte>)
    ensures |b| == 16 * |ms| + NameBytes(ms)
  {
    if |ms| == 0 then [] else EncodeRecord(RecordOf(ms[0])) + EncodeRecords(ms[1..])
  }

  /** The header `SendMarkersToPicoPixel` fills in: its count includes deleted slots. */
  function MarkerHeaderFor(count: int32): (h: MarkerDataHeader)
    ensures h.markerCount == count && h.prefix == NewMarkerDataHeader().prefix
  {
    NewMarkerDataHeader().(markerCount := count)
  }

  function MarkerHeaderWords(h: MarkerDataHeader): (ws: seq<int32>)
    ensures |ws| == 5
  {
    PrefixWords(h.prefix) + [h.markerCount]
  }

  /** The whole marker-sync message for a table. */
  function EncodeMarkerFrame(ms: seq<Marker>): (b: seq<byte>)
    requires |ms| <= Int32Max
    ensures |b| == 20 + 16 * |ms| + NameBytes(ms)
  {
    EncodeWords(MarkerHeaderWords(MarkerHeaderFor(|ms|))) + EncodeRecords(ms)
  }

  /** The frame is the marker prefix, the slot count, then one record per slot. */
  lemma MarkerFrameLayout(ms: seq<Marker>)
    requires |ms| <= Int32Max
    ensures EncodeMarkerFrame(ms) == EncodePrefix(NewPrefix(MarkerPackage)) + (I32(|ms|) + EncodeRecords(ms))
  {
    MarkerHeaderBytes(|ms|);
    Regroup(EncodePrefix(NewPrefix(MarkerPackage)), I32(|ms|), EncodeRecords(ms));
  }

  lemma MarkerHeaderBytes(n: int32)
    ensures EncodeWords(MarkerHeaderWords(MarkerHeaderFor(n))) == EncodePrefix(NewPrefix(MarkerPackage)) + I32(n)
  {
    var h := MarkerHeaderFor(n);
    EncodeWordsAppend(PrefixWords(h.prefix), [h.markerCount]);
    EncodeOneWord(h.markerCount);
  }

  function ReadRecord(bs: seq<byte>): (r: Option<(MarkerRecord, seq<byte>)>)
    ensures r.Some? ==> |r.value.1| < |bs|
  {
    if |bs| < 12 then None
    else
      var index := ReadI32(bs).value;
      var useCount := ReadI32(index.1).value;
      var color := ReadU32(useCount.1).value;
      match ReadString(color.1)
      case None => None
      case Some((name, rest)) => Some((MarkerRecord(index.0, useCount.0, color.0, name), rest))
  }

  lemma EncodeRecordLayout(r: MarkerRecord, rest: seq<byte>)
    ensures EncodeRecord(r) + rest == I32(r.index) + (I32(r.useCount) + (U32(r.color) + (EncodeString(r.name) + rest)))
  {
  }

  lemma ReadRecordRoundTrip(r: MarkerRecord, rest: seq<byte>)
    ensures ReadRecord(EncodeRecord(r) + rest) == Some((r, rest))
  {
    var s := EncodeString(r.name) + rest;
    var c := U32(r.color) + s;
    var u := I32(r.useCount) + c;
    EncodeRecordLayout(r, rest);
    ReadI32RoundTrip(r.index, u);
    ReadI32RoundTrip(r.useCount, c);
    ReadU32RoundTrip(r.color, s);
    ReadStringRoundTrip(r.name, rest);
  }

  function ReadRecords(bs: seq<byte>, n: nat): (r: Option<(seq<MarkerRecord>, seq<byte>)>)
    ensures r.Some? ==> |r.value.0| == n
  {
    if n == 0 then Some(([], bs))
    else
      match ReadRecord(bs)
      case None => None
      case Some((rec, rest)) =>
        match ReadRecords(rest, n - 1)
        case None => None
        case Some((recs, tail)) => Some(([rec] + recs, tail))
  }

  lemma EncodeRecordsCons(ms: seq<Marker>, rest: seq<byte>)
    requires |ms| > 0
    ensures EncodeRecords(ms) + rest == EncodeRecord(RecordOf(ms[0])) + (EncodeRecords(ms[1..]) + rest)
  {
  }

  lemma RecordsOfCons(ms: seq<Marker>)
    requires |ms| > 0
    ensures RecordsOf(ms) == [RecordOf(ms[0])] + RecordsOf(ms[1..])
  {
    assert RecordsOf(ms) == [RecordOf(ms[0])] + RecordsOf(ms[1..]);
  }

  /** One record, then the remaining ones. */
  lemma ReadRecordsCons(bs: seq<byte>, n: nat, rec: MarkerRecord, rest: seq<byte>,
                        recs: seq<MarkerRecord>, tail: seq<byte>)
    requires n > 0 && ReadRecord(bs) == Some((rec, rest))
    requires ReadRecords(rest, n - 1) == Some((recs, tail))
    ensures ReadRecords(bs, n) == Some(([rec] + recs, tail))
  {
  }

  lemma {:induction false} ReadRecordsRoundTrip(ms: seq<Marker>, rest: seq<byte>)
    ensures ReadRecords(EncodeRecords(ms) + rest, |ms|) == Some((RecordsOf(ms), rest))
  {
    if |ms| > 0 {
      var rec := RecordOf(ms[0]);
      var tail := EncodeRecords(ms[1..]) + rest;
      EncodeRecordsCons(ms, rest);
      ReadRecordRoundTrip(rec, tail);
      ReadRecordsRoundTrip(ms[1..], rest);
      ReadRecordsCons(EncodeRecord(rec) + tail, |ms|, rec, tail, RecordsOf(ms[1..]), rest);
      RecordsOfCons(ms);
    } else {
      assert EncodeRecords(ms) + rest == rest;
      assert RecordsOf(ms) == [];
    }
  }

  /** What follows the prefix of a marker-sync frame: the slot count, then
      that many records. */
  function DecodeMarkerBody(bs: seq<byte>): (r: Option<(seq<MarkerRecord>, seq<byte>)>)
    ensures r.Some? ==> |bs| >= 4
  {
    match ReadI32(bs)
    case None => None
    case Some((count, afterCount)) =>
      if count < 0 then None else ReadRecords(afterCount, count)
  }

  /** Reads a marker-sync frame in the sender's four-field record layout. */
  function DecodeMarkerFrame(bs: seq<byte>): (r: Option<(seq<MarkerRecord>, seq<byte>)>)
    ensures r.Some? ==> |bs| >= 20
  {
    match DecodePrefix(bs)
    case None => None
    case Some((p, afterPrefix)) =>
      if p.magic != NetSignature || p.payloadType != PackageCode(MarkerPackage) then None
      else DecodeMarkerBody(afterPrefix)
  }

  lemma MarkerBodyRoundTrip(ms: seq<Marker>, rest: seq<byte>)
    requires |ms| <= Int32Max
    ensures DecodeMarkerBody(I32(|ms|) + (EncodeRecords(ms) + rest)) == Some((RecordsOf(ms), rest))
  {
    ReadI32RoundTrip(|ms|, EncodeRecords(ms) + rest);
    ReadRecordsRoundTrip(ms, rest);
  }

  /** The decoder inverts the layout `MarkerFrameLayout` states. */
  lemma MarkerLayoutRoundTrip(ms: seq<Marker>, rest: seq<byte>)
    requires |ms| <= Int32Max
    ensures DecodeMarkerFrame(EncodePrefix(NewPrefix(MarkerPackage)) + (I32(|ms|) + (EncodeRecords(ms) + rest)))
            == Some((RecordsOf(ms), rest))
  {
    var body := I32(|ms|) + (EncodeRecords(ms) + rest);
    PrefixRoundTrip(NewPrefix(MarkerPackage), body);
    MarkerBodyRoundTrip(ms, rest);
  }

  /** Publishing the table and reading the bytes back yields, in order, the
      index, use count, colour and name of every slot, deleted ones included. */
  lemma MarkerFrameRoundTrip(ms: seq<Marker>, rest: seq<byte>)
    requires |ms| <= Int32Max
    ensures DecodeMarkerFrame(EncodeMarkerFrame(ms) + rest) == Some((RecordsOf(ms), rest))
  {
    var pre := EncodePrefix(NewPrefix(MarkerPackage));
    var count := I32(|ms|);
    var records := EncodeRecords(ms);
    MarkerFrameLayout(ms);
    RegroupTail(pre, count, records, rest);
    MarkerLayoutRoundTrip(ms, rest);
  }

  /* ---------------- receiver's header sniff ---------------- */

  /** The receiver's test on the peeked bytes: signature, then the marker type. */
  predicate SniffMarkerFrame(peek: seq<byte>)
    requires |peek| >= 8
  {
    && ReadI32(peek).value.0 == NetSignature
    && ReadI32(peek[4..]).value.0 == PackageCode(MarkerPackage)
  }

  lemma SniffPrefix(p: Prefix, tail: seq<byte>)
    ensures SniffMarkerFrame(EncodePrefix(p) + tail) <==>
      (p.magic == NetSignature && p.payloadType == PackageCode(MarkerPackage))
  {
    PrefixLayout(p);
    var after := I32(p.version) + I32(p.isBigEndian) + tail;
    var bs := EncodePrefix(p) + tail;
    assert bs == I32(p.magic) + (I32(p.payloadType) + after);
    ReadI32RoundTrip(p.magic, I32(p.payloadType) + after);
    assert bs[4..] == I32(p.payloadType) + after;
    ReadI32RoundTrip(p.payloadType, after);
  }

  /** The sniff accepts every marker frame the client emits... */
  lemma SniffAcceptsMarkerFrame(ms: seq<Marker>)
    requires |ms| <= Int32Max
    ensures SniffMarkerFrame(EncodeMarkerFrame(ms))
  {
    MarkerFrameLayout(ms);
    SniffPrefix(NewPrefix(MarkerPackage), I32(|ms|) + EncodeRecords(ms));
  }

  /** ...and rejects its handshake... */
  lemma SniffRejectsHandShake(clientId: Name)
    ensures !SniffMarkerFrame(EncodeHandShake(clientId))
  {
    HandShakeLayout(clientId);
    SniffPrefix(NewPrefix(ClientHandshake), EncodeString(clientId));
  }

  /** ...and every image frame. */
  lemma SniffRejectsImageFrame(f: ImageFrame)
    requires f.header.prefix.payloadType == PackageCode(ImagePackage)
    ensures !SniffMarkerFrame(EncodeImageFrame(f))
  {
    ImageFramePrefix(f);
    SniffPrefix(f.header.prefix, EncodeWords(ImageFieldWords(f.header)) + EncodeString(f.name) + f.pixels);
  }

  /** An image frame starts with its header's prefix. */
  lemma ImageFramePrefix(f: ImageFrame)
    ensures EncodeImageFrame(f) ==
      EncodePrefix(f.header.prefix) + (EncodeWords(ImageFieldWords(f.header)) + EncodeString(f.name) + f.pixels)
  {
    EncodeWordsAppend(PrefixWords(f.header.prefix), ImageFieldWords(f.header));
  }

  /* ---------------- records as the receiver reads them ---------------- */

  /** A record in the layout the receiver parses: index, use count, the
      declared name size, then the name bytes that arrived (taken as they
      come, NUL included). A name cut short by the end of the stream still
      makes a record: the receiver rejects only a name read of no bytes. */
  datatype ViewerRecord = ViewerRecord(index: int32, useCount: int32, nameSize: int32, nameField: seq<byte>)

  /** At least one name byte arrived, and no more than were declared. */
  predicate ViewerRecordOk(r: ViewerRecord)
  {
    0 < |r.nameField| <= r.nameSize
  }

  /** Every declared name byte arrived. */
  predicate ViewerRecordWhole(r: ViewerRecord)
  {
    |r.nameField| == r.nameSize
  }

  function EncodeViewerRecord(r: ViewerRecord): (b: seq<byte>)
    ensures |b| == 12 + |r.nameField|
  {
    I32(r.index) + I32(r.useCount) + I32(r.nameSize) + r.nameField
  }

  function EncodeViewerRecords(rs: seq<ViewerRecord>): (b: seq<byte>)
  {
    if |rs| == 0 then [] else EncodeViewerRecord(rs[0]) + EncodeViewerRecords(rs[1..])
  }

  /** What one pass of the receiver's per-record reads yields: a record and
      the stream after it; nothing usable, which breaks the loop; or a
      negative name size, whose `new char[]` throws on the receiver thread
      with nothing there to catch it. */
  datatype RecordRead = Record(record: ViewerRecord, rest: seq<byte>) | NoRecord | NameSizeThrows

  /** The receiver's three `RecvInteger` calls: three ints and what follows. */
  lemma ViewerRecordSplit(bs: seq<byte>, index: int32, useCount: int32, size: int32, rest: seq<byte>)
    requires |bs| >= 12
    requires ReadI32(bs) == Some((index, bs[4..]))
    requires ReadI32(bs[4..]) == Some((useCount, bs[8..]))
    requires ReadI32(bs[8..]) == Some((size, rest))
    ensures bs == I32(index) + I32(useCount) + I32(size) + rest
  {
    assert bs[8..] == I32(size) + rest;
    assert bs[4..] == I32(useCount) + bs[8..];
    assert bs == I32(index) + bs[4..];
  }

  /** One record off the front of the stream. Fewer than 12 bytes, a zero
      name size or a name of which no byte arrives read as no record; a
      negative name size throws before the name is read; a name the stream
      ends inside of is kept as far as it goes, and the stream is then
      exhausted. */
  function ReadViewerRecord(bs: seq<byte>): (r: RecordRead)
    ensures r.Record? ==> ViewerRecordOk(r.record) && |r.rest| < |bs|
    ensures r.Record? && !ViewerRecordWhole(r.record) ==> r.rest == []
    ensures r.NameSizeThrows? <==> |bs| >= 12 && ReadI32(bs[8..]).value.0 < 0
  {
    if |bs| < 12 then NoRecord
    else
      var index := ReadI32(bs).value;
      var useCount := ReadI32(index.1).value;
      assert useCount.1 == bs[8..];
      var size := ReadI32(useCount.1).value;
      var rest := size.1;
      if size.0 < 0 then NameSizeThrows
      else if size.0 == 0 || |rest| == 0 then NoRecord
      else if |rest| < size.0 then Record(ViewerRecord(index.0, useCount.0, size.0, rest), [])
      else Record(ViewerRecord(index.0, useCount.0, size.0, rest[..size.0]), rest[size.0..])
  }

  /** Whatever the receiver reads as a record is exactly that record's
      bytes followed by the rest. */
  lemma ReadViewerRecordInverse(bs: seq<byte>)
    ensures var r := ReadViewerRecord(bs);
            r.Record? ==> bs == EncodeViewerRecord(r.record) + r.rest
  {
    if |bs| >= 12 {
      var index := ReadI32(bs).value;
      var useCount := ReadI32(index.1).value;
      var size := ReadI32(useCount.1).value;
      var rest := size.1;
      ViewerRecordSplit(bs, index.0, useCount.0, size.0, rest);
      if 1 <= size.0 <= |rest| {
        assert rest == rest[..size.0] + rest[size.0..];
      } else {
        assert rest + [] == rest;
      }
    }
  }

  /** A record reads back intact when its name is whole, or when it is cut
      short and nothing follows it. */
  lemma ReadViewerRecordRoundTrip(r: ViewerRecord, rest: seq<byte>)
    requires ViewerRecordOk(r) && (ViewerRecordWhole(r) || rest == [])
    ensures ReadViewerRecord(EncodeViewerRecord(r) + rest) == Record(r, rest)
  {
    var c := r.nameField + rest;
    var b := I32(r.nameSize) + c;
    var a := I32(r.useCount) + b;
    assert EncodeViewerRecord(r) + rest == I32(r.index) + a;
    ReadI32RoundTrip(r.index, a);
    ReadI32RoundTrip(r.useCount, b);
    ReadI32RoundTrip(r.nameSize, c);
    if ViewerRecordWhole(r) {
      assert c[..r.nameSize] == r.nameField;
      assert c[r.nameSize..] == rest;
    } else {
      assert c == r.nameField;
    }
  }

  /** A record declaring a negative name size throws, whatever follows. */
  lemma ReadViewerRecordThrows(r: ViewerRecord, rest: seq<byte>)
    requires r.nameSize < 0
    ensures ReadViewerRecord(EncodeViewerRecord(r) + rest) == NameSizeThrows
  {
    var c := r.nameField + rest;
    var b := I32(r.nameSize) + c;
    var a := I32(r.useCount) + b;
    assert EncodeViewerRecord(r) + rest == I32(r.index) + a;
    ReadI32RoundTrip(r.index, a);
    ReadI32RoundTrip(r.useCount, b);
    ReadI32RoundTrip(r.nameSize, c);
  }

  /** How the receiver's record loop ended: all `marker_count` records read,
      a break on a record that could not be read, or a throw. */
  datatype LoopEnd = AllRead | Stopped | Thrown

  /** Reads up to `n` records, ending at the first that cannot be read or
      that throws; only the last record read can have a short name. */
  function ReadViewerRecords(bs: seq<byte>, n: nat): (r: (seq<ViewerRecord>, LoopEnd))
    ensures |r.0| <= n && (r.1 == AllRead <==> |r.0| == n)
    ensures forall k :: 0 <= k < |r.0| ==> ViewerRecordOk(r.0[k])
    ensures forall k :: 0 <= k < |r.0| - 1 ==> ViewerRecordWhole(r.0[k])
    decreases n
  {
    if n == 0 then ([], AllRead)
    else
      match ReadViewerRecord(bs)
      case NoRecord => ([], Stopped)
      case NameSizeThrows => ([], Thrown)
      case Record(rec, rest) =>
        var (recs, end) := ReadViewerRecords(rest, n - 1);
        ([rec] + recs, end)
  }

  lemma EncodeViewerRecordsCons(rs: seq<ViewerRecord>, rest: seq<byte>)
    requires |rs| > 0
    ensures EncodeViewerRecords(rs) + rest == EncodeViewerRecord(rs[0]) + (EncodeViewerRecords(rs[1..]) + rest)
  {
  }

  /** A readable record followed by a complete run of the remaining ones. */
  lemma ReadViewerRecordsCons(bs: seq<byte>, n: nat, rec: ViewerRecord, rest: seq<byte>,
                              recs: seq<ViewerRecord>)
    requires n > 0 && ReadViewerRecord(bs) == Record(rec, rest)
    requires ReadViewerRecords(rest, n - 1) == (recs, AllRead)
    ensures ReadViewerRecords(bs, n) == ([rec] + recs, AllRead)
  {
  }

  /** Records as a sender can lay them out before `rest`: each with at least
      one name byte, and only a last one with nothing after it cut short. */
  predicate ViewerRecordsFit(rs: seq<ViewerRecord>, rest: seq<byte>)
  {
    forall k :: 0 <= k < |rs| ==>
      ViewerRecordOk(rs[k]) && (ViewerRecordWhole(rs[k]) || (k == |rs| - 1 && rest == []))
  }

  /** Dropping the first record keeps the layout fit; the first is whole
      unless it is the only record and nothing follows it. */
  lemma ViewerRecordsFitTail(rs: seq<ViewerRecord>, rest: seq<byte>)
    requires |rs| > 0 && ViewerRecordsFit(rs, rest)
    ensures ViewerRecordsFit(rs[1..], rest)
    ensures ViewerRecordOk(rs[0])
    ensures ViewerRecordWhole(rs[0]) || EncodeViewerRecords(rs[1..]) + rest == []
  {
    forall k | 0 <= k < |rs[1..]|
      ensures ViewerRecordOk(rs[1..][k])
              && (ViewerRecordWhole(rs[1..][k]) || (k == |rs[1..]| - 1 && rest == []))
    {
      assert rs[1..][k] == rs[k + 1];
    }
    if !ViewerRecordWhole(rs[0]) {
      assert rs[1..] == [];
    }
  }

  lemma {:induction false} ReadViewerRecordsRoundTrip(rs: seq<ViewerRecord>, rest: seq<byte>)
    requires ViewerRecordsFit(rs, rest)
    ensures ReadViewerRecords(EncodeViewerRecords(rs) + rest, |rs|) == (rs, AllRead)
  {
    if |rs| > 0 {
      var tail := EncodeViewerRecords(rs[1..]) + rest;
      ViewerRecordsFitTail(rs, rest);
      EncodeViewerRecordsCons(rs, rest);
      ReadViewerRecordRoundTrip(rs[0], tail);
      ReadViewerRecordsRoundTrip(rs[1..], rest);
      assert |rs[1..]| == |rs| - 1;
      ReadViewerRecordsCons(EncodeViewerRecord(rs[0]) + tail, |rs|, rs[0], tail, rs[1..]);
      assert [rs[0]] + rs[1..] == rs;
    }
  }

  /** The two layouts disagree: read with the receiver's three-int layout, a
      record the client sends in its four-int layout has its colour taken as
      the name size, and the default colour, a negative int, makes the
      receiver throw. */
  lemma ClientRecordMisread(r: MarkerRecord, rest: seq<byte>)
    requires r.color == MarkerColor
    ensures ReadViewerRecord(EncodeRecord(r) + rest) == NameSizeThrows
  {
    var tail := EncodeString(r.name) + rest;
    assert U32(r.color) == I32(FromUnsigned(r.color));
    assert EncodeRecord(r) + rest == EncodeViewerRecord(ViewerRecord(r.index, r.useCount, FromUnsigned(r.color), [])) + tail;
    ReadViewerRecordThrows(ViewerRecord(r.index, r.useCount, FromUnsigned(r.color), []), tail);
  }
}
