/** The protocol vocabulary shared by client and viewer: the signature and
    default port, the payload-type and pixel-format codes, the packed frame
    headers with the codes their constructors stamp, and the `Marker` record
    with its trigger-count accessors. */
module Protocol {
  import opened Bytes

  /** 'P','I','C','O' read as a host int. */
  const NetSignature: int32 := 0x5049434F
  const ServerPort: int32 := 2001
  /** Declared as a signed int in the source but only ever used as an unsigned colour. */
  const MarkerColor: uint32 := 0xFF66FF00
  const ProtocolVersion: int32 := 1

  /** The `index_` of a deleted marker, and the "no pending update" value of
      `use_count_pico_pixel_update_`. */
  const Tombstone: int32 := -1
  const NoPendingUpdate: int32 := -1

  /** A string whose length plus its terminating NUL fits a signed int, as every
      `(int)str.size() + 1` in the client assumes. */
  type Name = s: seq<byte> | |s| < 0x7FFF_FFFF

  /* ---------------- payload types ---------------- */

  datatype PackageType = UnknownPackage | ClientHandshake | ImagePackage | MarkerPackage

  function PackageCode(t: PackageType): (c: int32)
    ensures 0 <= c <= 3
    ensures PackageOfCode(c) == Some(t)
  {
    match t
    case UnknownPackage => 0
    case ClientHandshake => 1
    case ImagePackage => 2
    case MarkerPackage => 3
  }

  /** The enumerator a received code names, if any. */
  function PackageOfCode(c: int): (r: Option<PackageType>)
    ensures r.Some? <==> 0 <= c <= 3
  {
    if c == 0 then Some(UnknownPackage)
    else if c == 1 then Some(ClientHandshake)
    else if c == 2 then Some(ImagePackage)
    else if c == 3 then Some(MarkerPackage)
    else None
  }

  /* ---------------- pixel formats ---------------- */

  datatype PixelFormat =
    | FormatUnknown | RGBA8 | BGRA8 | ARGB8 | ABGR8 | RGB8 | BGR8 | R5G6B5
    | Depth
    | Force32

  function FormatCode(f: PixelFormat): (c: int32)
    ensures FormatOfCode(c) == Some(f)
    ensures f != Force32 ==> 0 <= c <= 8
  {
    match f
    case FormatUnknown => 0
    case RGBA8 => 1
    case BGRA8 => 2
    case ARGB8 => 3
    case ABGR8 => 4
    case RGB8 => 5
    case BGR8 => 6
    case R5G6B5 => 7
    case Depth => 8
    case Force32 => 0x7fffffff
  }

  function FormatOfCode(c: int): (r: Option<PixelFormat>)
    ensures r.Some? <==> (0 <= c <= 8 || c == 0x7fffffff)
  {
    if c == 0 then Some(FormatUnknown)
    else if c == 1 then Some(RGBA8)
    else if c == 2 then Some(BGRA8)
    else if c == 3 then Some(ARGB8)
    else if c == 4 then Some(ABGR8)
    else if c == 5 then Some(RGB8)
    else if c == 6 then Some(BGR8)
    else if c == 7 then Some(R5G6B5)
    else if c == 8 then Some(Depth)
    else if c == 0x7fffffff then Some(Force32)
    else None
  }

  /** Different formats travel as different codes. */
  lemma FormatCodeInjective(f: PixelFormat, g: PixelFormat)
    requires FormatCode(f) == FormatCode(g)
    ensures f == g
  {
    assert FormatOfCode(FormatCode(f)) == Some(f);
  }

  /* ---------------- host byte order ---------------- */

  /** The value whose first memory byte the header constructor reads to
      decide the endianness flag. */
  const EndiannessProbe: uint32 := 0x0100_0000

  /** The memory image of a 32-bit value on a big-endian host. */
  function BigEndianMemory(u: uint32): (r: seq<byte>)
    ensures |r| == 4
  {
    var le := U32(u);
    [le[3], le[2], le[1], le[0]]
  }

  /** The header's `isbigendian` field: `*((char*)&i32)` with i32 = 0x01000000,
      that is, the first memory byte of the probe, on the modelled
      little-endian host (see `EndiannessProbeDistinguishes`). */
  const IsBigEndianFlag: int32 := 0

  /** The probe separates the two byte orders: its first memory byte is the
      flag above (0) on a little-endian host, and 1 on a big-endian one. */
  lemma EndiannessProbeDistinguishes()
    ensures U32(EndiannessProbe)[0] as int == IsBigEndianFlag
    ensures BigEndianMemory(EndiannessProbe)[0] == 1
  {
    assert EncodeLE(1, 1) == [1];
    assert EncodeLE(0x100, 2) == [0] + EncodeLE(1, 1);
    assert EncodeLE(0x1_0000, 3) == [0] + EncodeLE(0x100, 2);
    assert EncodeLE(0x100_0000, 4) == [0] + EncodeLE(0x1_0000, 3);
  }

  /* ---------------- headers ---------------- */

  /** The common prefix of every frame. */
  datatype Prefix = Prefix(magic: int32, payloadType: int32, version: int32, isBigEndian: int32)

  /** The prefix constructor, with the payload type the derived header stamps. */
  function NewPrefix(t: PackageType): (p: Prefix)
    ensures p.magic == NetSignature && p.version == ProtocolVersion && p.isBigEndian == 0
    ensures PackageOfCode(p.payloadType) == Some(t)
  {
    Prefix(NetSignature, PackageCode(t), ProtocolVersion, IsBigEndianFlag)
  }

  /** `size` carries the identifier length plus one for its NUL. */
  datatype HandShakeHeader = HandShakeHeader(prefix: Prefix, size: int32)

  datatype PixelInfoHeader = PixelInfoHeader(
    prefix: Prefix,
    width: int32,
    height: int32,
    pitch: int32,
    pixelFormat: int32,
    srgb: int32,
    upsideDown: int32)

  datatype MarkerDataHeader = MarkerDataHeader(prefix: Prefix, markerCount: int32)

  function NewHandShakeHeader(): (h: HandShakeHeader)
    ensures PackageOfCode(h.prefix.payloadType) == Some(ClientHandshake) && h.size == 0
  {
    HandShakeHeader(NewPrefix(ClientHandshake), 0)
  }

  function NewPixelInfoHeader(): (h: PixelInfoHeader)
    ensures PackageOfCode(h.prefix.payloadType) == Some(ImagePackage)
    ensures h.width == 0 && h.height == 0 && h.pitch == 0
    ensures h.pixelFormat == 0 && h.srgb == 0 && h.upsideDown == 0
  {
    PixelInfoHeader(NewPrefix(ImagePackage), 0, 0, 0, 0, 0, 0)
  }

  function NewMarkerDataHeader(): (h: MarkerDataHeader)
    ensures PackageOfCode(h.prefix.payloadType) == Some(MarkerPackage) && h.markerCount == 0
  {
    MarkerDataHeader(NewPrefix(MarkerPackage), 0)
  }

  /** Each derived header constructor stamps its own, distinct payload type
      over the prefix's UNKNOWN, and keeps the signature and version. */
  lemma HeadersStampOwnType()
    ensures NewPrefix(UnknownPackage).payloadType == 0
    ensures NewHandShakeHeader().prefix.payloadType == 1
    ensures NewPixelInfoHeader().prefix.payloadType == 2
    ensures NewMarkerDataHeader().prefix.payloadType == 3
    ensures NewHandShakeHeader().prefix.magic == NewPixelInfoHeader().prefix.magic
                                              == NewMarkerDataHeader().prefix.magic == NetSignature
  {
  }

  /* ---------------- markers ---------------- */

  /** A named trigger counter. `index` is the slot position it was created at,
      or `Tombstone` once deleted; `useCount` is the number of gated sends it
      still lets through; `pending` is the viewer's last reported count in
      manual synchronisation mode, or `NoPendingUpdate`. */
  datatype Marker = Marker(index: int32, name: Name, useCount: int32, pending: int32, color: uint32)

  /** The four-argument constructor. */
  function NewMarker(index: int32, name: Name, useCount: int32, color: uint32): (m: Marker)
    ensures m.pending == NoPendingUpdate
    ensures m.index == index && m.name == name && m.useCount == useCount && m.color == color
  {
    Marker(index, name, useCount, NoPendingUpdate, color)
  }

  /** The three-argument constructor: the default marker colour. */
  function NewMarkerDefaultColor(index: int32, name: Name, useCount: int32): (m: Marker)
    ensures m.pending == NoPendingUpdate && m.color == MarkerColor
    ensures m.index == index && m.name == name && m.useCount == useCount
  {
    NewMarker(index, name, useCount, MarkerColor)
  }

  /** The default constructor. It leaves the colour uninitialised, so the
      caller supplies whatever value the memory held. */
  function DefaultMarker(garbageColor: uint32): (m: Marker)
    ensures m.index == Tombstone && m.useCount == 0 && m.pending == NoPendingUpdate
    ensures m.name == []
  {
    Marker(Tombstone, [], 0, NoPendingUpdate, garbageColor)
  }

  function SetTriggerCount(m: Marker, count: int32): (r: Marker)
    ensures TriggerCount(r) == count
    ensures r.index == m.index && r.name == m.name && r.pending == m.pending && r.color == m.color
  {
    m.(useCount := count)
  }

  function TriggerCount(m: Marker): (c: int32)
  {
    m.useCount
  }

  /** A use of the marker: stays at zero, otherwise loses exactly one and
      reports the new count. The source decrements negative counts too, so
      only INT_MIN is excluded (its decrement would overflow). */
  function DecrementTriggerCount(m: Marker): (r: (Marker, int32))
    requires m.useCount != Int32Min
    ensures m.useCount == 0 ==> r.1 == 0 && r.0 == m
    ensures m.useCount != 0 ==> r.1 == m.useCount - 1 && r.0 == m.(useCount := m.useCount - 1)
    ensures r.1 == r.0.useCount
    ensures m.useCount >= 0 ==> r.0.useCount >= 0
  {
    if m.useCount == 0 then (m, 0)
    else
      var m' := m.(useCount := m.useCount - 1);
      (m', m'.useCount)
  }

  /** A marker with n >= 0 uses lets exactly n decrements through before it
      sticks at zero. */
  function DecrementTimes(m: Marker, k: nat): (r: Marker)
    requires m.useCount >= 0
    ensures r.useCount >= 0
    decreases k
  {
    if k == 0 then m else DecrementTimes(DecrementTriggerCount(m).0, k - 1)
  }

  lemma {:induction false} DecrementTimesCount(m: Marker, k: nat)
    requires m.useCount >= 0
    ensures DecrementTimes(m, k).useCount == if k <= m.useCount then m.useCount - k else 0
    ensures DecrementTimes(m, k) == m.(useCount := DecrementTimes(m, k).useCount)
    decreases k
  {
    if k > 0 {
      DecrementTimesCount(DecrementTriggerCount(m).0, k - 1);
    }
  }
}
