# PicoPixel client SDK — a Dafny model

PicoPixel is an image viewer. A client program links the PicoPixel client
SDK to push pixel buffers ("PixelPrintf") to the viewer over a TCP socket.
It also keeps a table of named *markers*. Each marker is a trigger counter
that gates how many times a given send is let through. The viewer can edit
these counters and send them back.

This project models the SDK's core in Dafny:

- **Bytes** (`bytes.dfy`): the 32-bit signed and unsigned integers of the
  Win32 target. It defines their little-endian memory image (what `SendRaw`
  puts on the wire for `&some_int`) and the decimal numerals of the
  automatic image names.
- **Protocol** (`protocol.dfy`): the shared vocabulary.
  - The signature, port, version and colour constants.
  - The payload-type and pixel-format codes.
  - The packed frame headers and the codes their constructors stamp.
  - The `Marker` record with its trigger-count accessors.
- **Wire** (`wire.dfy`): the byte layout of every message the client sends,
  and a decoder for each. The handshake, the image message and the
  marker-sync message round-trip through their decoders. The module also
  models the receiver's sniff of a peeked frame and the receiver's own
  record layout.
- **Markers** (`markers.dfy`): the marker table and its operations.
  - Create, use count, reset, delete, clear.
  - The gate in front of a marker-gated send.
  - The receiver's per-record update.
  - The manual commit `SynchronizeMarkers`, as written and as intended.
  - The invariants these operations keep.
- **Transport** (`transport.dfy`): the socket loops, as methods over a
  scripted socket.
  - `SendRaw` and its partial-write loop.
  - The fixed-size receive loop shared by `RecvInteger` and `RecvString`,
    with its stall counter.
- **Client** (`client.dfy`): the session and its flags.
  - Connect, end and auto-reconnect.
  - Publishing the marker table.
  - The image sends, ungated and marker-gated, including the `ImageInfo`
    overloads.
  - The receiver's parse of a marker-sync frame.
  - What the receiver thread does after its socket loop ends.

The socket, the resolver and thread creation are not modelled as real I/O:

- **The network is a parameter.** `Client.Network` says whether a host
  resolves, whether `connect` succeeds, and whether the receiver thread
  starts.
- **A run of send calls is a script.** In `Transport`, each script entry is
  what one `send` or `RecvRaw` call returns. In `Client`, an optional
  `SendFault` says which write of a message fails and after how many bytes.
- **The host is a little-endian Win32 machine.** `int` and `size_t` are both
  32 bits wide.

Where the header comments and the code disagree, the model follows the code:

- **Handshake.** The `size` field comment in the handshake header says it
  excludes the NUL. `HandShake` stores and sends the identifier length plus
  one, and then sends the NUL too.
- **Marker-sync frame.** The layout comment on the marker-sync header gives
  a name size followed by that many bytes plus one. `SendMarkersToPicoPixel`
  sends a size of length+1 and then length+1 bytes: the name and its NUL.
- **Deleted markers.** They keep their name and their count. So
  `CreateMarker` still rejects a deleted marker's name
  (`Markers.DeletedNameStaysTaken`). `MarkerUseCount` and the gate still read
  the slot (`Markers.DeleteKeepsUseCount`).
- **Record layouts.** The client sends marker records as index, use count,
  colour, name size, name. Its receiver reads records as index, use count,
  name size, name. `Wire.ClientRecordMisread` shows that a record in the
  client's own layout, with the default colour, makes the receiver throw.
- **`StartConnection`.** The header declares a `start_receiver_thread`
  argument that the definition does not take. The model follows the
  definition: the receiver thread is started whenever the connection
  succeeds, the session is not reconnecting, and thread creation works.

## Model

| member | source | states |
|---|---|---|
| Bytes.SignedRoundTrip | SDK/PicoPixelClient.h:29-39 | an `int` reinterpreted as unsigned and back is unchanged, so the signed/unsigned casts lose nothing |
| Bytes.ToUnsigned | SDK/PicoPixelClient.h:29-39 | an `int` reinterpreted as unsigned agrees with it modulo 2^32 and is unchanged when non-negative |
| Bytes.FromUnsigned | SDK/PicoPixelClient.h:29-39 | an unsigned value reinterpreted as `int` agrees with it modulo 2^32, is unchanged up to INT_MAX, and converts back to the same unsigned value |
| Bytes.DecodeEncodeLE | SDK/PicoPixelClient.cpp:294-302 | reading back the n little-endian memory bytes of an integer below 256^n yields that integer |
| Bytes.EncodeDecodeLE | SDK/PicoPixelClient.cpp:294-302 | any n bytes are the memory image of the integer they encode, so the encoding is onto |
| Bytes.ReadI32RoundTrip | SDK/PicoPixelClient.cpp:294-302 | an `int` sent as its 4 memory bytes reads back as the same `int`, leaving the rest of the stream untouched |
| Bytes.ReadI32 | SDK/PicoPixelClient.cpp:294-302 | an `int` can be read exactly when 4 bytes are present, and the 4 bytes read are that `int`'s memory image |
| Bytes.ReadWords | SDK/PicoPixelClientProtocol.h:17-31 | n packed ints can be read exactly when 4n bytes are present, and reading them consumes exactly those bytes |
| Bytes.ReadU32RoundTrip | SDK/PicoPixelClient.cpp:714-732 | an unsigned colour sent as 4 memory bytes reads back unchanged |
| Bytes.ReadWordsRoundTrip | SDK/PicoPixelClientProtocol.h:17-31 | a packed header of n ints reads back field by field |
| Bytes.I32Injective | SDK/PicoPixelClient.cpp:294-302 | distinct ints have distinct memory images |
| Bytes.DecimalRoundTrip | SDK/PicoPixelClient.cpp:795-800 | the decimal digits of the image counter read back as the counter |
| Bytes.DecimalInjective | SDK/PicoPixelClient.cpp:795-800 | distinct counters give distinct numerals |
| Bytes.DecimalLength | SDK/PicoPixelClient.cpp:795-800 | a value below 10^k prints in at most k digits |
| Bytes.DecimalOfInt32 | SDK/PicoPixelClient.cpp:795-800 | a non-negative `int` counter prints in at most 10 digits |
| Bytes.FlattenPrefix | SDK/PicoPixelClient.cpp:802-822 | the bytes of the first k writes of a message are a prefix of the whole message |
| Protocol.PackageCode | SDK/PicoPixelClientProtocol.h:8-14 | every payload type has a code in 0..3 that decodes back to that type |
| Protocol.PackageOfCode | SDK/PicoPixelClientProtocol.h:8-14 | a received code names a payload type exactly when it lies in 0..3 |
| Protocol.FormatCode | SDK/PicoPixelClient.h:13-27 | every pixel format has a code that decodes back to it; all but the FORCE32 sentinel lie in 0..8 |
| Protocol.FormatOfCode | SDK/PicoPixelClient.h:13-27 | a code names a format exactly when it is 0..8 or 0x7fffffff |
| Protocol.FormatCodeInjective | SDK/PicoPixelClient.h:13-27 | distinct pixel formats travel as distinct codes |
| Protocol.EndiannessProbeDistinguishes | SDK/PicoPixelClientProtocol.h:17-31 | the probe value's first memory byte is 0 on a little-endian host and 1 on a big-endian one, so the header's flag tells them apart |
| Protocol.NewPrefix | SDK/PicoPixelClientProtocol.h:17-31 | every header starts with the signature, version 1, the little-endian flag, and a payload code that decodes to the requested type |
| Protocol.NewHandShakeHeader | SDK/PicoPixelClientProtocol.h:33-41 | a fresh handshake header is typed as a handshake, with size 0 |
| Protocol.NewPixelInfoHeader | SDK/PicoPixelClientProtocol.h:43-65 | a fresh image header is typed as an image, with every field 0 |
| Protocol.NewMarkerDataHeader | SDK/PicoPixelClientProtocol.h:67-94 | a fresh marker header is typed as marker data, with count 0 |
| Protocol.HeadersStampOwnType | SDK/PicoPixelClientProtocol.h:33-94 | the three derived headers stamp the distinct payload codes 1, 2 and 3 over the prefix's 0, all with the same signature |
| Protocol.NewMarker | SDK/PicoPixelClientProtocol.h:105-112 | a new marker has no pending viewer update and holds the given index, name, count and colour |
| Protocol.NewMarkerDefaultColor | SDK/PicoPixelClientProtocol.h:114-121 | the three-argument constructor gives the default marker colour |
| Protocol.DefaultMarker | SDK/PicoPixelClientProtocol.h:123-128 | a default marker is deleted, has no uses and no pending update, and its colour is left unset |
| Protocol.SetTriggerCount | SDK/PicoPixelClientProtocol.h:130-138 | setting the trigger count makes the getter report it and changes nothing else |
| Protocol.DecrementTriggerCount | SDK/PicoPixelClientProtocol.h:140-146 | a count of 0 sticks; any other count loses exactly one and the new value is returned; non-negative counts stay non-negative |
| Protocol.DecrementTimesCount | SDK/PicoPixelClientProtocol.h:140-146 | k decrements of a marker with c >= 0 uses leave max(c-k, 0) and touch no other field |
| Wire.PrefixLayout | SDK/PicoPixelClientProtocol.h:17-31 | the 16-byte prefix is magic, payload type, version and endianness flag, in that order |
| Wire.NewPrefixBytes | SDK/PicoPixelClientProtocol.h:17-31 | every constructed prefix is the signature, the type's code, 1 and 0 |
| Wire.DecodePrefix | SDK/PicoPixelClientProtocol.h:17-31 | a prefix can be read exactly when 16 bytes are present |
| Wire.PrefixRoundTrip | SDK/PicoPixelClientProtocol.h:17-31 | reading a sent prefix gives it back and leaves the rest of the stream |
| Wire.EncodeString | SDK/PicoPixelClient.cpp:294-302 | a sent string takes 4 + length + 1 bytes and ends in a NUL |
| Wire.ReadStringRoundTrip | SDK/PicoPixelClient.cpp:294-302 | a string sent as its size with NUL, then its bytes and NUL, reads back intact |
| Wire.HandShakeHeaderFor | SDK/PicoPixelClient.cpp:369-379 | the handshake size counts the identifier's NUL |
| Wire.HandShakeLayout | SDK/PicoPixelClient.cpp:369-379 | the handshake is the handshake prefix, then the identifier length + 1, then the identifier and its NUL |
| Wire.HandShakeRoundTrip | SDK/PicoPixelClient.cpp:369-379 | the handshake reads back as the client identifier |
| Wire.EncodeHandShake | SDK/PicoPixelClient.cpp:369-379 | the handshake takes 20 header bytes plus the identifier and its NUL |
| Wire.DecodeHandShake | SDK/PicoPixelClientProtocol.h:33-41 | whatever reads as a handshake had at least a prefix and consumed more than it |
| Wire.ReadString | SDK/PicoPixelClient.cpp:294-302 | reading a string always consumes input |
| Wire.ImageHeaderLayout | SDK/PicoPixelClientProtocol.h:43-65 | after the prefix the image header holds width, height, pitch, pixel format, sRGB flag and upside-down flag, in that order |
| Wire.DecodeImageHeader | SDK/PicoPixelClientProtocol.h:43-65 | an image header can be read exactly when 40 bytes are present |
| Wire.EncodeImageHeader | SDK/PicoPixelClientProtocol.h:43-65 | the packed image header takes exactly 40 bytes |
| Wire.ImageHeaderRoundTrip | SDK/PicoPixelClientProtocol.h:43-65 | a sent image header reads back field for field |
| Wire.PixelCount | SDK/PicoPixelClient.cpp:815-816 | the pixel byte count of a valid image is at least its pitch and at least its height |
| Wire.EncodeImageFrame | SDK/PicoPixelClient.cpp:802-823 | an image message is 40 header bytes, 4 size bytes, the name with its NUL, and the pixels |
| Wire.DecodeImageFrame | SDK/PicoPixelClient.cpp:802-822 | whatever reads as an image frame has positive dimensions and exactly pitch*height pixel bytes |
| Wire.ImageFrameRoundTrip | SDK/PicoPixelClient.cpp:802-822 | an image message that passed the checks reads back as its header, name and pixels |
| Wire.RecordOf | SDK/PicoPixelClient.cpp:723-731 | a published record carries the marker's index, count, colour and name, but not its pending viewer count |
| Wire.RecordsOf | SDK/PicoPixelClient.cpp:723-731 | one record per slot, deleted slots included, in table order |
| Wire.EncodeRecord | SDK/PicoPixelClient.cpp:725-730 | a record takes 12 + 4 + name + 1 bytes |
| Wire.EncodeRecords | SDK/PicoPixelClient.cpp:723-731 | the records take 16 bytes per slot plus the names with their NULs |
| Wire.MarkerHeaderFor | SDK/PicoPixelClient.cpp:719-721 | the marker header's count is the number of slots, deleted ones included |
| Wire.EncodeMarkerFrame | SDK/PicoPixelClient.cpp:714-732 | a marker-sync message is 20 header bytes, then 16 bytes per slot plus the names and NULs |
| Wire.MarkerFrameLayout | SDK/PicoPixelClient.cpp:714-732 | the message is the marker prefix, the slot count, then each slot's record in order |
| Wire.ReadRecordRoundTrip | SDK/PicoPixelClient.cpp:725-730 | one record reads back as index, count, colour and name |
| Wire.ReadRecords | SDK/PicoPixelClient.cpp:723-731 | a successful read of n records yields n records |
| Wire.ReadRecordsRoundTrip | SDK/PicoPixelClient.cpp:723-731 | the records of a table read back, in order, as the table's records |
| Wire.MarkerBodyRoundTrip | SDK/PicoPixelClient.cpp:719-731 | the count and the records after the prefix read back as the table's records |
| Wire.MarkerFrameRoundTrip | SDK/PicoPixelClient.cpp:714-732 | publishing the table and reading the bytes back yields every slot's record in order, with the rest of the stream left over |
| Wire.DecodeMarkerFrame | SDK/PicoPixelClient.cpp:714-732 | whatever reads as a marker-sync message had at least its 20-byte header |
| Wire.SniffPrefix | SDK/PicoPixelClient.cpp:165-170 | the receiver's sniff accepts a frame exactly when its prefix has the signature and the marker type |
| Wire.SniffAcceptsMarkerFrame | SDK/PicoPixelClient.cpp:165-170 | the sniff accepts every marker-sync message the client builds |
| Wire.SniffRejectsHandShake | SDK/PicoPixelClient.cpp:165-170 | the sniff rejects the handshake |
| Wire.SniffRejectsImageFrame | SDK/PicoPixelClient.cpp:165-170 | the sniff rejects every image message |
| Wire.ViewerRecordSplit | SDK/PicoPixelClient.cpp:182-198 | the three ints the receiver reads are exactly the first 12 bytes of the stream, in order |
| Wire.ReadViewerRecord | SDK/PicoPixelClient.cpp:177-207 | a record the receiver reads has between one and its declared number of name bytes and consumes input; a name cut short leaves nothing after it; the read throws exactly when 12 bytes are there and the declared name size is negative |
| Wire.ReadViewerRecordInverse | SDK/PicoPixelClient.cpp:177-207 | whatever the receiver reads as a record is that record's bytes followed by the rest |
| Wire.ReadViewerRecordRoundTrip | SDK/PicoPixelClient.cpp:177-207 | a receiver-layout record reads back intact, a whole name with anything after it and a name cut short at the end of the stream |
| Wire.ReadViewerRecordThrows | SDK/PicoPixelClient.cpp:194-200 | a record declaring a negative name size throws before its name is read, whatever follows |
| Wire.ReadViewerRecords | SDK/PicoPixelClient.cpp:175-221 | the loop reads at most n records, reports all read exactly when it read n, and only its last record can have a short name |
| Wire.ViewerRecordsFitTail | SDK/PicoPixelClient.cpp:175-221 | in a run a sender can lay out, every record but a final one at the end of the stream is whole |
| Wire.ReadViewerRecordsRoundTrip | SDK/PicoPixelClient.cpp:175-221 | n receiver-layout records read back as the same n records, all read, including a last one cut short at the end of the stream |
| Wire.ClientRecordMisread | SDK/PicoPixelClient.cpp:177-207 | a record the client itself sends, with the default colour, makes the receiver throw: the colour lands where the name size is expected and is negative |
| Markers.NewTable | SDK/PicoPixelClient.cpp:12-23 | a new client has no markers and auto-sync on |
| Markers.FirstMatch | SDK/PicoPixelClient.cpp:679-690 | the scan finds the first slot satisfying the test, or reports that none does |
| Markers.CreateMarker | SDK/PicoPixelClient.cpp:595-612 | creation fails with -1, changing nothing, exactly when some slot (deleted or not) has the name; otherwise it appends the marker at position n with no pending update and returns n |
| Markers.CreateMarkerDefaultColor | SDK/PicoPixelClient.cpp:590-593 | the three-argument overload behaves the same and stores the default colour |
| Markers.CreatePreservesValid | SDK/PicoPixelClient.cpp:595-612 | creation keeps every slot at its own position or tombstoned, and all names distinct |
| Markers.MarkerUseCount | SDK/PicoPixelClient.cpp:614-624 | the query reports -1 past the end and otherwise the slot's trigger count |
| Markers.CreateThenUseCount | SDK/PicoPixelClient.cpp:614-624 | a created marker reports the count it was created with |
| Markers.ResetMarkerAt | SDK/PicoPixelClient.cpp:627-636 | a reset zeroes the count at an existing position and changes nothing else; other positions change nothing |
| Markers.ResetMarkerNamed | SDK/PicoPixelClient.cpp:638-652 | an empty or unknown name changes nothing; otherwise only the first slot with the name, deleted or not, is zeroed |
| Markers.ResetNamedIsResetAt | SDK/PicoPixelClient.cpp:638-652 | with distinct names, resetting by name is resetting that name's position |
| Markers.ResetThenUseCount | SDK/PicoPixelClient.cpp:627-636 | after a reset the query reports 0 |
| Markers.DeleteMarkerAt | SDK/PicoPixelClient.cpp:660-677 | deletion keeps the length and every name; a bad position or an absent index changes nothing; otherwise exactly the first live slot with that index is tombstoned |
| Markers.DeleteMarkerNamed | SDK/PicoPixelClient.cpp:679-690 | deletion keeps the length and every name, and tombstones exactly the first live slot with the name, if any |
| Markers.DeleteAtWellIndexed | SDK/PicoPixelClient.cpp:660-677 | in a well-indexed table, deleting position i tombstones that slot when it is live and otherwise changes nothing |
| Markers.DeleteAtPreservesValid | SDK/PicoPixelClient.cpp:660-677 | deletion by position keeps the table valid |
| Markers.DeleteNamedPreservesValid | SDK/PicoPixelClient.cpp:679-690 | deletion by name keeps the table valid |
| Markers.DeleteAtIdempotent | SDK/PicoPixelClient.cpp:660-677 | deleting the same position twice is deleting it once |
| Markers.DeletePreservesValidIndex | SDK/PicoPixelClient.cpp:660-677 | deletion keeps every slot at its position or tombstoned |
| Markers.DeleteNamedIdempotent | SDK/PicoPixelClient.cpp:679-690 | with distinct names, deleting a name twice is deleting it once |
| Markers.DeleteKeepsUseCount | SDK/PicoPixelClient.cpp:614-624 | the use-count query reads positions, so deletion never changes what it reports |
| Markers.DeletedNameStaysTaken | SDK/PicoPixelClient.cpp:595-612 | a name stays taken after its marker is deleted: creating it again fails |
| Markers.ClearMarkers | SDK/PicoPixelClient.cpp:654-658 | clearing empties the table, keeps the auto-sync flag, and leaves a valid table |
| Markers.GatedTake | SDK/PicoPixelClient.cpp:836-843 | the gate passes exactly when the position exists and its count is positive; a pass takes exactly one use at that position and nothing else; a refusal changes nothing |
| Markers.GatedRun | SDK/PicoPixelClient.cpp:836-843 | k gated attempts let at most k through and keep the table's length |
| Markers.GatedRunCount | SDK/PicoPixelClient.cpp:836-843 | a marker with c >= 0 uses lets exactly min(k, c) of k gated sends through and is left with the rest |
| Markers.GatedTakeKeepsNonNegative | SDK/PicoPixelClient.cpp:836-843 | no gated send drives a count below zero |
| Markers.AutoSynchronizeMarkers | SDK/PicoPixelClient.cpp:704-707 | turns auto-sync on and leaves the markers alone |
| Markers.DisableAutoSynchronizeMarkers | SDK/PicoPixelClient.cpp:709-712 | turns auto-sync off and leaves the markers alone |
| Markers.ApplySyncRecord | SDK/PicoPixelClient.cpp:209-220 | a viewer record past the end is ignored; in auto mode it replaces the count and clears the pending slot; in manual mode it only fills the pending slot; no other slot or field changes |
| Markers.ApplySyncRecords | SDK/PicoPixelClient.cpp:175-221 | applying a frame's records keeps the table's length and mode |
| Markers.ApplySyncRecordsKeepsShape | SDK/PicoPixelClient.cpp:175-221 | no sequence of viewer records changes any slot's index, name or colour |
| Markers.SynchronizeMarkersAsWritten | SDK/PicoPixelClient.cpp:692-702 | as written, the commit never changes a count: each slot with a pending update has only its pending slot overwritten with its current count, keeping index, name and colour; other slots are untouched |
| Markers.ManualCommitAsWrittenLosesUpdate | SDK/PicoPixelClient.cpp:692-702 | as written, a manual-mode viewer update followed by the commit leaves the count unchanged and loses the viewer's value |
| Markers.ManualCommitAsWrittenExample | SDK/PicoPixelClient.cpp:692-702 | concretely: count 3, viewer reports 5, after the commit the count is still 3 |
| Markers.SynchronizeMarkersIntended | SDK/PicoPixelClient.cpp:692-702 | intended commit: in each slot with a pending update, the viewer's count becomes the marker's count and the pending slot is cleared, with index, name and colour kept; slots without an update are untouched |
| Markers.SynchronizeIdempotent | SDK/PicoPixelClient.cpp:692-702 | applying the intended commit twice is the same as applying it once |
| Markers.ManualCommitMatchesAuto | SDK/PicoPixelClient.cpp:692-702 | with nothing else pending and a non-negative viewer count, the corrected commit after a manual-mode update gives the same table as the auto-mode update (a negative count sits in the pending slot and is never committed, where auto mode would apply it) |
| Transport.Min | SDK/PicoPixelClient.cpp:275-283 | the smaller of two values |
| Transport.Accepted | SDK/PicoPixelClient.cpp:275-283 | one `send` call accepts between 0 and the bytes offered |
| Transport.SendCalls | SDK/PicoPixelClient.cpp:275-283 | the number of calls that completes a send, if no call fails first, lies within the script |
| Transport.SendCallsCompletes | SDK/PicoPixelClient.cpp:275-283 | a socket whose every call accepts at least one byte, and which accepts enough bytes in all, completes the send |
| Transport.SumFrom | SDK/PicoPixelClient.cpp:275-283 | the bytes a non-negative script offers are non-negative |
| Transport.SendRaw | SDK/PicoPixelClient.cpp:260-292 | a null pointer or non-positive size fails with no call; otherwise it succeeds exactly when the loop completes, and the accepted chunks are exactly the buffer's first `size` bytes on success and a strict prefix of them on failure |
| Transport.ReadCount | SDK/PicoPixelClient.cpp:325-346 | one receive call with a zero request reads nothing (a negative request is treated the same way, see Left out); otherwise it reads -1 on error and at most the request |
| Transport.RecvLoop | SDK/PicoPixelClient.cpp:325-346 | the loop completes exactly when its byte total equals the expected size; otherwise it ends on the fourth empty read |
| Transport.ZerosMonotone | SDK/PicoPixelClient.cpp:335 | the count of empty reads in a prefix of the script never falls as the prefix grows |
| Transport.RecvLoopPastEnd | SDK/PicoPixelClient.cpp:325-346 | once the script is used up, a loop short of its size stalls out and never completes |
| Transport.RecvLoopStep | SDK/PicoPixelClient.cpp:332-342 | on a script where each request is positive and at least the reply it meets, one call delivers exactly the next reply: the loop gives up if that is the fourth empty read, completes if the total now hits the size, and otherwise continues with the longer prefix's counts |
| Transport.RecvLoopFromScript | SDK/PicoPixelClient.cpp:325-346 | from any point of a script where each call delivers exactly its reply (its request, the size minus the previous reply, is positive and at least that reply), the loop completes exactly when some later prefix sums to the size with at most three empty reads counted from the start |
| Transport.RecvLoopCompletesIff | SDK/PicoPixelClient.cpp:325-346 | from a fresh start, on any script where each call delivers exactly its reply (no error, and the request, the size minus the previous reply, is positive and at least that reply), the loop completes exactly when some prefix of the script sums to the size with at most three empty reads in it: bytes that arrive never reset the stall counter |
| Transport.FittingScripts | SDK/PicoPixelClient.cpp:332-342 | an int arriving whole, an int in two pieces and the overshooting 1, 2, 2 socket all meet that condition, and the 1, 2, 2 socket never completes |
| Transport.RecvLoopStallsAccumulate | SDK/PicoPixelClient.cpp:335 | asked for 4 bytes, a socket alternating one byte and an empty read gives up at its fourth empty read, with 3 bytes read and a fourth still on offer |
| Transport.ReceiveFixed | SDK/PicoPixelClient.cpp:325-346 | the imperative loop computes the reference loop: it completes exactly on an exact byte total, and on a script where each call delivers exactly its reply, exactly when a prefix reaches the size before the fourth empty read |
| Transport.IntsReceived | SDK/PicoPixelClient.cpp:345 | the result is the byte total divided by 4, rounded down |
| Transport.RecvInteger | SDK/PicoPixelClient.cpp:325-346 | it runs the loop over 4n bytes and reports n ints when the loop completes |
| Transport.RecvString | SDK/PicoPixelClient.cpp:348-367 | it runs the loop over n bytes and reports the byte total, which equals n exactly on completion |
| Transport.RecvLoopOvershoots | SDK/PicoPixelClient.cpp:325-346 | as written, asked for 4 bytes, a socket delivering 1, 2, 2 is read to a total of 5 and never completes, yet one int is reported |
| Transport.RecvLoopCorrected | SDK/PicoPixelClient.cpp:325-346 | corrected loop: the running total never exceeds the expected size, and it completes exactly when the total reaches it |
| Transport.RecvCorrectedCompletes | SDK/PicoPixelClient.cpp:325-346 | the corrected loop completes whenever every read delivers something and the socket offers enough bytes |
| Transport.RecvCorrectedExample | SDK/PicoPixelClient.cpp:325-346 | the 1, 2, 2 socket completes the corrected loop |
| Client.NewClient | SDK/PicoPixelClient.cpp:12-23 | a new client is disconnected, not terminated, not reconnecting, without auto-reconnect or receiver threads, with an empty auto-sync table and image counter 0 |
| Client.ResolverHost | SDK/PicoPixelClient.cpp:434-437 | a host name of 1 to 510 characters is used as given; any other means the local host |
| Client.StartConnectionToHost | SDK/PicoPixelClient.cpp:407-549 | connecting clears the termination flag. It succeeds exactly when already connected, or when the port is above 1024 and the host resolves and connects. An open socket returns at once and sends nothing; a failure leaves the socket closed and sends nothing. A fresh success records host and port and sends the handshake. A receiver thread starts exactly on a fresh, non-reconnecting success when the thread starts |
| Client.StartConnection | SDK/PicoPixelClient.cpp:401-405 | connecting with no host connects to the local host on port 2001 |
| Client.ConnectTwice | SDK/PicoPixelClient.cpp:407-549 | a second connect on a connected session succeeds, sends nothing and changes nothing |
| Client.FailedConnectStartsNothing | SDK/PicoPixelClient.cpp:407-549 | a failed connect starts no receiver and leaves the session disconnected |
| Client.EndConnection | SDK/PicoPixelClient.cpp:561-583 | ending sets the termination flag, closes the socket, forgets host and port, and keeps the identity and reconnect flags |
| Client.EndConnectionIdempotent | SDK/PicoPixelClient.cpp:561-583 | ending twice is ending once |
| Client.EnableAutoReconnect | SDK/PicoPixelClient.cpp:551-554 | sets only the auto-reconnect flag |
| Client.DisableAutoReconnect | SDK/PicoPixelClient.cpp:556-559 | clears only the auto-reconnect flag |
| Client.SendMarkersToPicoPixel | SDK/PicoPixelClient.cpp:714-732 | sends nothing when disconnected; when connected, the bytes read back as every slot's record in order and pass the receiver's marker sniff |
| Client.SendMarkersSeesOnlyTable | SDK/PicoPixelClient.cpp:714-732 | what is published depends only on whether the socket is open and on the table |
| Client.DeleteAllAddMarkers | SDK/PicoPixelClient.cpp:654-658 | the table is emptied, and when connected an empty marker frame is published |
| Client.Flatten4 | SDK/PicoPixelClient.cpp:802-822 | four writes put their bytes on the wire in order |
| Client.Emit | SDK/PicoPixelClient.cpp:802-822 | a run of checked writes succeeds exactly when no write fails; success puts every write's bytes on the wire, and failure a strict prefix of them |
| Client.EmitStopsShort | SDK/PicoPixelClient.cpp:802-822 | a write that fails part-way leaves a strict prefix of the message on the wire |
| Client.EmitCoversSendRawFailure | SDK/PicoPixelClient.cpp:260-292 | every strict prefix a failing `SendRaw` call may leave on the wire, after the calls before it succeeded, is an outcome of the modelled send sequence |
| Client.ImageHeaderFor | SDK/PicoPixelClient.cpp:781-788 | the image header carries the request's dimensions, format and flags under an image prefix |
| Client.ImageName | SDK/PicoPixelClient.cpp:790-800 | a given name is used unchanged with the counter kept; an empty one becomes "Pixel-PrintF-Image" plus the counter's decimal digits and advances the counter |
| Client.AutoNamesDistinct | SDK/PicoPixelClient.cpp:790-800 | distinct counter values give distinct automatic names |
| Client.FrameOf | SDK/PicoPixelClient.cpp:781-822 | a checked request gives a well-formed image message with the request's header and the first pitch*height bytes of its buffer, which reads back intact |
| Client.ImageFrameSends | SDK/PicoPixelClient.cpp:802-822 | the image message is the header, the name size, the name with its NUL, and the pixels |
| Client.ImagePieces | SDK/PicoPixelClient.cpp:802-822 | the send is four non-empty writes whose bytes are exactly the image message |
| Client.PixelPrintf | SDK/PicoPixelClient.cpp:762-824 | a disconnected client or a failed argument check sends nothing and fails. The counter advances exactly when a checked request has no name. A connected client with a checked request succeeds exactly when none of its four writes fails. Success puts exactly the image message on the wire, and it reads back intact; a failed write leaves a strict prefix of it |
| Client.GatedPixelPrintf | SDK/PicoPixelClient.cpp:826-854 | a refused gate sends nothing and changes nothing; a passed gate takes one use before sending, and the use is kept even when the send then fails |
| Client.GatedOneUse | SDK/PicoPixelClient.cpp:826-854 | a marker with one use lets one send through; the next is refused, sends nothing and changes nothing |
| Client.RequestOf | SDK/PicoPixelClient.cpp:749-760 | the `ImageInfo` overload forwards the unsigned dimensions reinterpreted as `int`, and the format, name and buffer as given |
| Client.PixelPrintfInfo | SDK/PicoPixelClient.cpp:749-760 | a dimension above INT_MAX turns negative and the send is refused |
| Client.InfoSizeIgnored | SDK/PicoPixelClient.cpp:749-760 | the `size` field of `ImageInfo` has no effect on the send |
| Client.GatedPixelPrintfInfo | SDK/PicoPixelClient.cpp:734-747 | the gated `ImageInfo` overload is the gate followed by the ungated `ImageInfo` send |
| Client.ParseIncoming | SDK/PicoPixelClient.cpp:165-225 | the receiver treats bytes as a marker-sync frame exactly when they hold a full header that passes the sniff, and every record it reads has at least one name byte |
| Client.UpdatesOf | SDK/PicoPixelClient.cpp:209-220 | each record read contributes its index and count, in order |
| Client.ReceiveFrame | SDK/PicoPixelClient.cpp:165-225 | receiving ends the process exactly when a record throws; otherwise it keeps the table's length and mode, and a frame that is not marker-sync changes nothing |
| Client.ParseMarkerBody | SDK/PicoPixelClient.cpp:172-221 | after a marker-sync prefix, the receiver reads the count and then that many records |
| Client.ViewerFrameHead | SDK/PicoPixelClient.cpp:165-175 | a viewer frame passes the sniff and carries its record count after the prefix |
| Client.ViewerRecordsReadBack | SDK/PicoPixelClient.cpp:175-221 | the viewer's records read back, all read, the last one possibly cut short |
| Client.ParseViewerFrame | SDK/PicoPixelClient.cpp:165-225 | a marker-sync frame laid out in the receiver's record layout parses back to exactly its records, complete |
| Client.ReceiveViewerFrame | SDK/PicoPixelClient.cpp:165-225 | receiving such a frame applies exactly its records, in order, to the table |
| Client.ReceiveShortName | SDK/PicoPixelClient.cpp:200-214 | a frame that ends three bytes into a five-byte name still applies its record: in auto-sync mode marker 0 takes use count 10 |
| Client.ReceiveNegativeNameSize | SDK/PicoPixelClient.cpp:194-200 | a first record declaring a negative name size leaves no table: the process ends |
| Client.ReceiverAfterLoop | SDK/PicoPixelClient.cpp:231-256 | the receiver stops exactly when auto-reconnect is off or the client ended the connection, and then clears the reconnecting flag and sends nothing; otherwise it attempts a reconnection and runs again; it never touches the table, the counter or the receiver count |
| Client.ReconnectingSession | SDK/PicoPixelClient.cpp:236-241 | a reconnection marks the session as reconnecting and falls back to port 2001 when no host is cached |
| Client.Reconnect | SDK/PicoPixelClient.cpp:234-250 | a reconnection always runs again and clears the termination flag; if the socket was still open it republishes the markers; the socket ends open exactly when the reconnecting flag ends cleared |
| Client.ReconnectRepublishes | SDK/PicoPixelClient.cpp:234-250 | a successful reconnection from a closed socket sends the handshake and then the whole marker table |
| Client.FailedReconnectRunsAgain | SDK/PicoPixelClient.cpp:234-250 | a failed reconnection sends nothing, stays disconnected and reconnecting, and runs again |
| Client.StaleSocketReconnect | SDK/PicoPixelClient.cpp:234-250 | when the socket was never closed, the reconnection sends no handshake but republishes the markers |
| Client.EndConnectionStopsReceiver | SDK/PicoPixelClient.cpp:231-256 | after `EndConnection` the receiver stops |

## Left out

- Winsock itself is not modelled: startup and cleanup, sockets, `select` timeouts, `getaddrinfo` and `connect`. Their outcomes are the `Network` parameter and the reply scripts.
- Dotted-quad formatting of the resolved address and the port's text form are left out. Only the resolved host value and whether resolution succeeded are modelled.
- Thread creation, `ResumeThread`, thread shutdown and every data race between the receiver thread and the caller are left out. There is no concurrency in the model.
- Logging to stdout and stderr is left out; it has no effect on state.
- `FlushRecvBuffer` is left out, because its draining only affects bytes the model does not track. A frame that is not marker-sync is treated as consumed.
- `RecvRaw`'s peek mode and short peeks are left out. A frame shorter than its 20-byte header is treated as not marker-sync.
- Negative marker positions, given to `MarkerUseCount`, the gated sends or the receiver, index the vector out of range, which is undefined behaviour. The model excludes them by precondition.
- Overflow of `pitch * height` is left out: the image sends require the product to fit an `int` and the buffer to hold that many bytes.
- Overflow of the image-name counter is left out: the sends require it to stay within INT_MAX.
- `Client.PixelPrintf`: the image-name counter is a function-level static, shared by every client object in the process. The model keeps it per client.
- `Protocol.DecrementTriggerCount`: INT_MIN is excluded, because its decrement would overflow.
- Markers.CreateMarker: names hold at most INT_MAX - 1 bytes (`Protocol.Name`) and the table at most INT_MAX slots (`Markers.MarkerList`), and creation requires a table shorter than INT_MAX. The source casts `size()` to `int` (SDK/PicoPixelClient.cpp:296 and 607), so a longer string or vector would wrap; the model does not cover that.
- Client.Emit: image sends are modelled on top of `Transport.SendRaw`'s contract, not its loop. A failed write is a `SendFault` naming the failing call and how many of its bytes got out. `Client.EmitCoversSendRawFailure` shows every strict prefix that `SendRaw` allows on failure is such an outcome.
- `HandShake` and `SendMarkersToPicoPixel` ignore the results of their writes. The model sends each of them completely or, when disconnected, not at all.
- `Client.ParseIncoming`: it reads the records from the complete byte string. It does not run the chunked receive loop per field, so the loop's overshoot (a finding below) is modelled only in `Transport`. The end of the string stands for a stream that stalls: a name it cuts short is kept as far as it goes, as `RecvString`'s partial count lets it through.
- `Client.ReceiveFrame`: a negative name size makes `new char[]` throw on the receiver thread, where nothing catches it, so the process terminates. The model returns no table and says nothing more about the process.
- Transport.RecvLoopCompletesIff: the all-scripts statement covers scripts where every call delivers exactly its reply. A reply larger than the loop's request (the socket holding more than the misdirected request asks for) is cut to the request, and the statement says nothing about such scripts; `Transport.RecvLoop` still models them.
- Transport.ReadCount: a negative request is read as nothing. In the source, `RecvRaw` takes its size as `unsigned int` (SDK/PicoPixelClient.cpp:67), so a negative request wraps to a huge size, passes the `buffer_size < 1L` test (line 78) and still reaches `select` and `recv`. The loop makes such a request only after a -1 reply has already moved its write offset before the buffer, which is undefined behaviour. The model does not follow the call past that point.
- `Transport.RecvInteger` and `Transport.RecvString` track how many bytes each call delivers, not the bytes themselves or where in the buffer they land.
- The `HandShake` guard that compares an unsigned size with UINT_MAX can never fire, and the model leaves it out.
- The `SendRaw` guard that compares an `int` with INT_MAX can never fire either, and is left out too.
- OpenGL capture helpers are not part of this model, and neither is the rest of the repository beyond the client SDK.

## Findings

| source | as written | input that shows it | evidently intended | confidence | as-written member | corrected member |
|---|---|---|---|---|---|---|
| SDK/PicoPixelClient.cpp:692-702 | `SynchronizeMarkers` copies each marker's use count into its pending-update slot | manual mode; marker count 3; the viewer reports 5 (pending becomes 5); after the commit the count is still 3 and pending is 3 | copy the pending viewer count into the use count and reset the pending slot to -1 | high; not executed | Markers.ManualCommitAsWrittenLosesUpdate | Markers.ManualCommitMatchesAuto |
| SDK/PicoPixelClient.cpp:325-367 | `RecvInteger` and `RecvString` use the last call's byte count, not the running total, as both the buffer offset and the amount still missing | 4 bytes expected; the socket delivers 1, then 2, then 2; the total reaches 5, the exact test never fires, and the loop gives up incomplete | request `expected - total_bytes` at offset `total_bytes` | high; not executed | Transport.RecvLoopOvershoots | Transport.RecvCorrectedCompletes |
