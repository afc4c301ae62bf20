# EspLink, modelled in Dafny

EspLink is the C# client that EspMon uses to talk to ESP32 chips over a serial port, speaking the ROM bootloader's protocol. It frames packets SLIP-style and runs the bootloader commands (SYNC, READ_REG, WRITE_REG, MEM_BEGIN/DATA/END, FLASH_DEFL_BEGIN/DATA/END, SPI_ATTACH, CHANGE_BAUDRATE). It resets the chip into the bootloader with DTR/RTS sequences and connects with retries. It downloads and starts the flasher stub, drives the SPI flash through the chip's SPI registers, and writes zlib-compressed images to flash. The EspMon host also packs its Screen records into the fixed byte layouts that the monitor firmware reads.

The project has one module per concern, each in its own file:

- `bytes.dfy`: little-endian packing and checksum.
- `framing.dfy` and `transport.dfy`: frames.
- `packet.dfy` and `commands.dfy`: request packets and the command/reply loops.
- `session.dfy`: the link and its serial port, as classes whose fields change.
- `devices.dfy`, `selection.dfy`, `hooks.dfy`: chip descriptors.
- `registers.dfy`, `memory.dfy`, `stub.dfy`, `spi.dfy`, `baud.dfy`: register, RAM, stub, SPI and baud-rate commands.
- `reset.dfy`, `ports.dfy`, `connect.dfy`: reset strategies, port names and connecting.
- `flash.dfy`, `zlib.dfy`: compressed flashing.
- `display.dfy`: the Screen packets.

Operations that change the link or the port are methods on those classes. Most of them are proved equal to a function over the wire state, that is the bytes sent and the bytes queued from the chip. The properties are proved about those functions.

## Model

| member | source | states |
|---|---|---|
| Bytes.LE32 | EspMon/EspLink/EspLink.Pack.cs:16 | `BitConverter.GetBytes(uint)` on a little-endian host yields exactly 4 bytes |
| Bytes.LE16 | EspMon/EspLink/EspLink.Pack.cs:41-44 | `BitConverter.GetBytes(ushort)` yields exactly 2 bytes |
| Bytes.Word32OfLE32 | EspMon/EspLink/EspLink.Pack.cs:16 | the 4 little-endian bytes of a word read back as that word |
| Bytes.LE32OfWord32 | EspMon/EspLink/EspLink.Pack.cs:16 | every 4-byte group is the little-endian image of the word it reads as (the encoding is onto) |
| Bytes.Word16OfLE16 | EspMon/EspLink/EspLink.Pack.cs:41-44 | the 2 little-endian bytes of a half-word read back as that half-word |
| Bytes.LEWords | EspMon/EspLink/EspLink.Pack.cs:14-23 | the packing of n values is 4n bytes long |
| Bytes.LEWordsAt | EspMon/EspLink/EspLink.Pack.cs:14-23 | value k of a packing sits at bytes 4k..4k+3, little-endian |
| Bytes.LEWordsAppend | EspMon/EspLink/EspLink.Pack.cs:14-23 | packing a concatenation is the concatenation of the packings |
| Bytes.WordsOfLEWords | EspMon/EspLink/EspLink.Pack.cs:14-23 | reading word k back out of a packing returns value k (round trip) |
| Bytes.Record | EspMon/EspLink/EspLink.Pack.cs:14-23 | a four-word record is 16 bytes |
| Bytes.LEWords4 | EspMon/EspLink/EspLink.Pack.cs:14-23 | packing four values gives exactly their 16-byte record |
| Bytes.RecordDecodes | EspMon/EspLink/EspLink.Pack.cs:14-23 | each 4-byte field of a record reads back as the value stored there |
| Bytes.PackUInts | EspMon/EspLink/EspLink.Pack.cs:8-24 | succeeds iff 4·count bytes remain after the index; on failure ArgumentException with the array untouched; on success the array is the old prefix, then every value little-endian, then the old tail |
| Bytes.Checksum | EspMon/EspLink/EspLink.Pack.cs:25-32 | the result is the XOR fold of data[index..index+length) starting from the seed, and the seed itself for an empty range |
| Bytes.XorFoldAppend | EspMon/EspLink/EspLink.Pack.cs:25-32 | checksumming a concatenation continues from the first part's checksum |
| Bytes.XorFoldTwice | EspMon/EspLink/EspLink.Pack.cs:25-32 | a block repeated twice leaves the checksum at the seed |
| Bytes.XorFoldUndo | EspMon/EspLink/EspLink.Pack.cs:25-32 | folding the same bytes again undoes them |
| Bytes.XorFoldShift | EspMon/EspLink/EspLink.Pack.cs:25-32 | changing the seed by some bits changes the checksum by exactly those bits |
| Bytes.SwapBytes32Reverses | EspMon/EspLink/EspLink.Pack.cs:33-40 | the swapped word's little-endian bytes are the original's in reverse order |
| Bytes.SwapBytes32Fields | EspMon/EspLink/EspLink.Pack.cs:33-40 | byte 0 of the result is byte 3 of the input, byte 1 is byte 2, byte 2 is byte 1, byte 3 is byte 0 |
| Bytes.SwapBytes32Involution | EspMon/EspLink/EspLink.Pack.cs:33-40 | swapping twice gives the word back |
| Bytes.SwapBytes16 | EspMon/EspLink/EspLink.Pack.cs:41-44 | the result's little-endian bytes are the input's two bytes exchanged |
| Bytes.SwapBytes16Involution | EspMon/EspLink/EspLink.Pack.cs:41-44 | swapping a half-word twice gives it back |
| Bytes.PadTo | EspMon/EspLink/EspLink.Pack.cs:45-61 | an aligned array is returned itself; otherwise a fresh array of the next multiple of the alignment holds the data followed by pad bytes; the length is the least multiple of the alignment not below the data length |
| Framing.EscapeAppend | EspMon/EspLink/EspLink.Frame.cs:33-50 | escaping a concatenation is the concatenation of the escapings (SLIP escaping works byte by byte) |
| Framing.EscapeShape | EspMon/EspLink/EspLink.Frame.cs:15-50 | the escaped body is one byte longer per 0xC0/0xDB byte, holds no 0xC0 at all, and never ends in a lone 0xDB |
| Framing.EscapePlain | EspMon/EspLink/EspLink.Frame.cs:15-50 | a body with no 0xC0 or 0xDB byte is sent unchanged |
| Framing.FrameShape | EspMon/EspLink/EspLink.Frame.cs:30-51 | a frame is count+2 bytes, starts and ends with 0xC0 and has no 0xC0 in between |
| Framing.EncodeAtZero | EspMon/EspLink/EspLink.Frame.cs:13-51 | from index 0 the encoder as written produces exactly the SLIP frame of data[..length] |
| Framing.EncodeAtOneMisreads | EspMon/EspLink/EspLink.Frame.cs:35 | with index 1 the encoder reads data[i + index]: the frame carries 0x41 where the byte 0xC0 at data[1] was meant |
| Framing.EncodeFrame | EspMon/EspLink/EspLink.Frame.cs:13-51 | the array encoder (counting loop, then the copy loop with cursor j) computes exactly the as-written frame, including IndexOutOfRange when the doubled index runs past the data or the buffer |
| Framing.EscapeRangeSlice | EspMon/EspLink/EspLink.Frame.cs:33-50 | the copy loop's output over data[lo..hi) is the escaping of that slice |
| Framing.EscapeRangeGrows | EspMon/EspLink/EspLink.Frame.cs:33-50 | the copy loop's output only grows as it reads further |
| Framing.CopyOverflow | EspMon/EspLink/EspLink.Frame.cs:35-47 | once the copy has filled the buffer, the full copy would not fit or runs past the data |
| Framing.CopyEscaped | EspMon/EspLink/EspLink.Frame.cs:33-50 | the copy loop either writes [0xC0] + the escaping of data[2·index .. 2·index+length) into the buffer, or stops because that read or write is out of range |
| Framing.CopyByte | EspMon/EspLink/EspLink.Frame.cs:36-49 | one round of the copy loop appends the byte's escape and reports whether the cursor is still inside the buffer |
| Framing.PutEscaped | EspMon/EspLink/EspLink.Frame.cs:36-49 | writing one source byte at cursor j puts its 1- or 2-byte escape there and advances j by that length |
| Framing.EncodeOverflow | EspMon/EspLink/EspLink.Frame.cs:33-50 | when the misindexed copy runs past the data or the buffer, the encoder raises IndexOutOfRange |
| Framing.EncodedWhole | EspMon/EspLink/EspLink.Frame.cs:30-51 | when the copy fits, the result is 0xC0, the copied bytes, 0xC0 and zeros up to the counted size |
| Framing.EscapedSize | EspMon/EspLink/EspLink.Frame.cs:15-29 | the counting loop yields length plus one per 0xC0/0xDB byte, the length of the escaped body |
| Framing.EscCountBound | EspMon/EspLink/EspLink.Frame.cs:104-109 | the escape count never exceeds the body length, and is below it for a non-empty body |
| Framing.OutLength | EspMon/EspLink/EspLink.Frame.cs:104-110 | the decoded length never exceeds the collected body |
| Framing.Unescape | EspMon/EspLink/EspLink.Frame.cs:112-144 | the unescaping loop yields at most m bytes and fails only with "Invalid escape content" |
| Framing.DecodeBody | EspMon/EspLink/EspLink.Frame.cs:104-145 | a decoded frame has exactly the counted length (body length minus escapes not in last place); the only error is the invalid escape IOException |
| Framing.DecodedSize | EspMon/EspLink/EspLink.Frame.cs:104-109 | the counting loop computes the decoded length |
| Framing.Decode | EspMon/EspLink/EspLink.Frame.cs:104-145 | the array decoder (count, allocate, loop with i and count) computes exactly the decode function |
| Framing.DecodePlain | EspMon/EspLink/EspLink.Frame.cs:104-145 | a body without 0xDB decodes to itself |
| Framing.DecodeEscapedEndAlone | EspMon/EspLink/EspLink.Frame.cs:117-121 | the body DB DC, meant to carry 0xC0, decodes to 0xDB because the escape falls on the last output slot |
| Framing.DecodeEscapedEndThenByte | EspMon/EspLink/EspLink.Frame.cs:104-145 | DB DC 41 decodes to C0 00: the loop stops after two reads and the last raw byte is never copied |
| Framing.DecodeBadEscape | EspMon/EspLink/EspLink.Frame.cs:123-136 | an escape followed by anything but DC/DD, with room left in the output, raises IOException |
| Framing.UnescapeReadsPrefix | EspMon/EspLink/EspLink.Frame.cs:112-144 | the unescaping loop over m output slots reads no raw byte past position m |
| Framing.DecodeReadsPrefix | EspMon/EspLink/EspLink.Frame.cs:104-145 | with k > 0 escapes, two bodies agreeing on the first (body length - k + 1) bytes decode alike: the last raw bytes beyond are never read |
| Framing.EscCountSnoc | EspMon/EspLink/EspLink.Frame.cs:105-109 | appending a byte adds an escape exactly when the previous last byte was 0xDB |
| Framing.EscCountOfEscape | EspMon/EspLink/EspLink.Frame.cs:105-109 | an escaped body holds exactly one counted escape per special byte of the payload |
| Framing.EscapedBodyBound | EspMon/EspLink/EspLink.Frame.cs:104-110 | for an escaped payload the decoder allocates exactly the payload's length |
| Framing.CollectShape | EspMon/EspLink/EspLink.Frame.cs:67-103 | collecting a frame consumes at least one queued byte, leaves a suffix of the queue, and collects no 0xC0 |
| Framing.CollectFrame | EspMon/EspLink/EspLink.Frame.cs:73-103 | bytes before the first 0xC0 are skipped, and the bytes up to the next 0xC0 are the body; the rest stays queued |
| Framing.CollectBody | EspMon/EspLink/EspLink.Frame.cs:95-102 | after the start delimiter every byte is collected until the next 0xC0 |
| Framing.FrameRoundTrip | EspMon/EspLink/EspLink.Frame.cs:13-145 | a payload without 0xC0/0xDB that is framed and read back comes out unchanged, with what followed still queued |
| Framing.FrameRoundTripFailsOnEnd | EspMon/EspLink/EspLink.Frame.cs:104-145 | the payload [0xC0] is sent as DB DC and read back as [0xDB]: the decoder as written does not invert the encoder |
| Framing.Unslip | EspMon/EspLink/EspLink.Frame.cs:112-144 | the intended SLIP decoder yields at most as many bytes as it reads and fails only on an invalid escape |
| Framing.EscapeCons | EspMon/EspLink/EspLink.Frame.cs:33-50 | escaping a byte in front is that byte's escape followed by the rest's |
| Framing.UnslipEscape | EspMon/EspLink/EspLink.Frame.cs:104-145 | the intended decoder inverts escaping for every payload |
| Framing.FrameRoundTripIntended | EspMon/EspLink/EspLink.Frame.cs:13-145 | every payload framed, collected and decoded the intended way comes back unchanged, while the decoder as written differs on [0xC0] |
| Packet.LengthOf | EspMon/EspLink/EspLink.Command.cs:133 | the little-endian length field read from two bytes is below 65536 |
| Packet.ByteFor | EspMon/EspLink/EspLink.Command.cs:16 | a (byte) cast of a value below 256 keeps the value |
| Packet.LengthRoundTrip | EspMon/EspLink/EspLink.Command.cs:104-109 | writing (ushort)length and reading the field back gives length mod 65536 |
| Packet.PacketBytes | EspMon/EspLink/EspLink.Command.cs:100-119 | a request is 8 + (data length) bytes: direction 0x00, the opcode, then header fields, then the data unchanged |
| Packet.RequestBytes | EspMon/EspLink/EspLink.Command.cs:15-16 | the buffer CommandAsync packs is 8 + (data length) bytes |
| Packet.PackOpPacket | EspMon/EspLink/EspLink.Command.cs:100-119 | writes exactly the request bytes at destination[index..] and leaves every other byte of the array as it was |
| Packet.PackHeader | EspMon/EspLink/EspLink.Command.cs:102-117 | the 8-byte header is 0x00, op, the 16-bit length and the 32-bit checksum, little-endian, and nothing else changes |
| Packet.Unpack | EspMon/EspLink/EspLink.Command.cs:120-148 | succeeds iff the frame holds an 8-byte header from the index and the announced data length; then op, length and data are the frame's fields; otherwise ArgumentException |
| Packet.UnpackOfPack | EspMon/EspLink/EspLink.Command.cs:100-148 | unpacking a packed request with under 65536 data bytes returns its op, length, checksum and data (round trip) |
| Packet.UnpackIgnoresDirection | EspMon/EspLink/EspLink.Command.cs:131 | the direction byte has no effect on the unpacked reply |
| Packet.UnpackOfLongPack | EspMon/EspLink/EspLink.Command.cs:104-146 | with 65536 or more data bytes the (ushort) cast wraps: the reply carries only the first (data length mod 65536) bytes |
| Commands.Judge | EspMon/EspLink/EspLink.Command.cs:21-38 | for one frame of CommandAsync's loop: skip (None) exactly for the OHAI frame or a well-formed reply for another op that is not an error reply; otherwise the answer, the unpack ArgumentException or "Invalid message received" |
| Commands.Replies | EspMon/EspLink/EspLink.Command.cs:19-40 | the reply loop sends nothing, only consumes queued bytes, fails only with a reply fault, and after the tries are used up raises "Retry count exceeded" with the wire untouched |
| Commands.CommandOn | EspMon/EspLink/EspLink.Command.cs:10-41 | a command consumes queued bytes and fails only with a reply fault or the port's NullReference |
| Commands.Command | EspMon/EspLink/EspLink.Command.cs:10-41 | CommandAsync: the new wire and the answer are CommandOn's; op -1 sends nothing and leaves the port as it was; any other op leaves the port open; the log of the serial port only grows |
| Commands.RepliesIs | EspMon/EspLink/EspLink.Command.cs:19-40 | the reply function obeys the one-frame step equations the loop relies on |
| Commands.CommandLoop | EspMon/EspLink/EspLink.Command.cs:19-40 | the 100-iteration loop computes the reply function of the wire it started on |
| Commands.ReplyRound | EspMon/EspLink/EspLink.Command.cs:21-38 | one iteration either finishes with the reply function's result, or leaves the rest of the loop equal to one try fewer from the new wire |
| Commands.RepliesStep | EspMon/EspLink/EspLink.Command.cs:21-38 | a read error ends the loop with that error; a judged frame ends it with its verdict; a skipped frame costs one try |
| Commands.JudgeValue | EspMon/EspLink/EspLink.Command.cs:53-73 | for one frame of CommandResultAsync: skip exactly for a frame under 8 bytes or a reply for another op that is no error reply; an empty matching reply is "Unable to read value" |
| Commands.ValueReplies | EspMon/EspLink/EspLink.Command.cs:51-75 | the value loop sends nothing, only consumes queued bytes, fails only with a reply fault or "Unable to read value", and raises "Retry count exceeded" when out of tries |
| Commands.ValueRepliesStep | EspMon/EspLink/EspLink.Command.cs:53-73 | one read of the value loop: error, verdict, or one try fewer from the rest of the queue |
| Commands.ValueCommandOn | EspMon/EspLink/EspLink.Command.cs:42-76 | CommandResultAsync consumes queued bytes and fails only with a reply fault, "Unable to read value" or NullReference |
| Commands.CommandResult | EspMon/EspLink/EspLink.Command.cs:42-76 | the method's new wire and value are ValueCommandOn's; op -1 sends nothing; any other op leaves the port open |
| Commands.CommandResultLoop | EspMon/EspLink/EspLink.Command.cs:51-75 | the 100-iteration value loop computes ValueReplies of the wire it started on |
| Commands.CheckStatus | EspMon/EspLink/EspLink.Command.cs:81-97 | succeeds iff there is a device, the reply holds at least STATUS_BYTES_LENGTH bytes and the first status byte is 0; then the value is kept and the data is the reply minus its status tail; the errors are NullReference, "Incomplete status" and "Failed to complete" |
| Commands.CheckOnSends | EspMon/EspLink/EspLink.Command.cs:12-79 | a checked command on a port that is or can be opened sends exactly one frame: the packed request |
| Commands.CheckOnOkSends | EspMon/EspLink/EspLink.Command.cs:12-79 | a successful checked command has sent exactly its request frame and left the port open |
| Commands.CheckCommand | EspMon/EspLink/EspLink.Command.cs:77-98 | CheckCommandAsync: the new wire and result are those of CheckOn (the command, then the status split); op -1 sends nothing |
| Commands.Unit | EspMon/EspLink/EspLink.Command.cs:77-98 | dropping a command's value keeps success and the fault unchanged |
| Commands.OhaiIs | EspMon/EspLink/EspLink.Command.cs:22 | the stub-loaded test holds exactly for the frame 4F 48 41 49 |
| Commands.OhaiFrame | EspMon/EspLink/EspLink.Command.cs:22 | the OHAI payload frames as C0 4F 48 41 49 C0, and it is plain (no byte needs escaping) |
| Commands.ReadOhai | EspMon/EspLink/EspLink.Command.cs:21-57 | an OHAI frame at the head of the queue is read and skipped by both loops |
| Commands.RepliesPastOhai | EspMon/EspLink/EspLink.Command.cs:22-26 | CommandAsync skips an OHAI frame at the cost of one try |
| Commands.ValueRepliesPastOhai | EspMon/EspLink/EspLink.Command.cs:54-57 | CommandResultAsync skips an OHAI frame (under 8 bytes) at the cost of one try |
| Commands.ReadPacket | EspMon/EspLink/EspLink.Command.cs:21-27 | a framed plain reply at the head of the queue is read whole and unpacks to its fields |
| Commands.RepliesAnswer | EspMon/EspLink/EspLink.Command.cs:27-65 | a matching reply ends both loops: with its value and data, and for the value loop with "Unable to read value" when its data is empty |
| Commands.RepliesOther | EspMon/EspLink/EspLink.Command.cs:32-38 | a reply for another op raises "Invalid message received" iff its data is an error reply, and otherwise is skipped |
| Commands.ValueRepliesOther | EspMon/EspLink/EspLink.Command.cs:67-73 | the same rule holds in CommandResultAsync |
| Commands.RepliesEmpty | EspMon/EspLink/EspLink.Command.cs:21-53 | an empty queue ends both loops with TimeoutException when a timeout is set, and with Starved (the program's endless wait) when it is -1 |
| Commands.CheckStatusSplits | EspMon/EspLink/EspLink.Command.cs:81-97 | a reply of body + status tail succeeds with the body when status[0] is 0, and otherwise fails with the 16-bit status code |
| Session.SerialPort.constructor | EspMon/EspLink/EspLink.SerialPort.cs:38 | a new port object is closed, has both control lines low, runs at 115200 baud with no handshake and has done nothing yet |
| Session.Link.constructor | EspMon/EspLink/EspLink.cs:12-15 | a new link stores the port name and opens nothing: no port, no device, not in the bootloader, no stub, not SPI-attached, baud 115200, default timeout 5000 |
| Session.Link.GetOrOpenPort | EspMon/EspLink/EspLink.SerialPort.cs:34-55 | the port object is created at 115200 baud the first time and reused afterwards with its settings; it is opened when it is not yet open and the device is there; the result is the port when open and null otherwise |
| Session.Link.ReadByteNoBlock | EspMon/EspLink/EspLink.SerialPort.cs:62-72 | -1 on an empty queue; otherwise the oldest byte, which leaves the queue (FIFO) |
| Session.Link.Cleanup | EspMon/EspLink/EspLink.Lifetime.cs:7-11 | the device becomes null and the SPI-attached flag false; the stub flag, the bootloader flag and the baud are untouched |
| Session.Link.Close | EspMon/EspLink/EspLink.SerialPort.cs:144-159 | an open port is closed (one Closed event), the port reference is dropped, then Cleanup runs |
| Session.Link.Dispose | EspMon/EspLink/EspLink.Lifetime.cs:12-16 | disposing is closing |
| Session.Link.Finalize | EspMon/EspLink/EspLink.Lifetime.cs:17-20 | the finalizer is closing too |
| Session.Link.SetDefaultTimeout | EspMon/EspLink/EspLink.cs:19 | DefaultTimeout is a plain settable value: only it changes |
| Session.Link.SetSerialHandshake | EspMon/EspLink/EspLink.SerialPort.cs:23-33 | the handshake is recorded, and passed to the port only when the port exists |
| Transport.TimeoutWait | EspMon/EspLink/EspLink.Frame.cs:77-84 | a timeout is noticed after the first 10 ms step that reaches it: a multiple of 10, at least the timeout and less than 10 ms past it |
| Transport.NextFrame | EspMon/EspLink/EspLink.Frame.cs:67-146 | reading a frame consumes a prefix of the queue; it waits only when it times out; TimeoutException needs a timeout above -1 and comes after the 10 ms polls reach it; Starved happens only without a timeout |
| Transport.NextFrameOfFrame | EspMon/EspLink/EspLink.Frame.cs:67-146 | a framed plain payload at the head of the queue is read back unchanged, with no waiting and the rest left queued |
| Transport.NextFrameSkipsJunk | EspMon/EspLink/EspLink.Frame.cs:87-103 | bytes before the first 0xC0 are dropped and the body up to the next 0xC0 is decoded |
| Transport.NextFrameIncomplete | EspMon/EspLink/EspLink.Frame.cs:75-86 | a queue without a whole frame is drained, then the read times out (or starves with no timeout) |
| Transport.ReadFrame | EspMon/EspLink/EspLink.Frame.cs:67-146 | the polling loop computes NextFrame of the queue it started on: the result, the bytes left and the time waited |
| Transport.Sent | EspMon/EspLink/EspLink.Frame.cs:57 | the frames on the wire are the port's write events, in order |
| Transport.SentAppend | EspMon/EspLink/EspLink.Frame.cs:57 | the frames of a longer log are those of its parts in order |
| Transport.WriteFrame | EspMon/EspLink/EspLink.Frame.cs:13-65 | WriteFrameAsync: an encoding error leaves the port alone; otherwise the port is fetched or opened, and an open port gets exactly one write of the encoded frame and one flush, while a port that would not open gives NullReference and no write |
| Transport.OpenPort | EspMon/EspLink/EspLink.SerialPort.cs:34-55 | fetching the port changes only the wire's open flag, logs one Opened event when it opens it, and returns null when it could not |
| Transport.SentSkipsQuiet | EspMon/EspLink/EspLink.Frame.cs:57 | events other than writes add no frame |
| Transport.SentAfterWrite | EspMon/EspLink/EspLink.Frame.cs:52-59 | opening, writing and flushing adds exactly the written frame |
| Transport.ReadOn | EspMon/EspLink/EspLink.Frame.cs:67-146 | a read sends nothing, leaves the open flag and consumes queued bytes only |
| Transport.SendOn | EspMon/EspLink/EspLink.Command.cs:12-18 | op -1 sends nothing; otherwise success adds exactly the frame of the packed request and leaves the port open, and the only failure is NullReference from a port that is closed and absent, with nothing changed |
| Transport.Send | EspMon/EspLink/EspLink.Command.cs:12-18 | the request step of CommandAsync changes the wire as SendOn says; op -1 does not touch the port |
| Transport.PackRequest | EspMon/EspLink/EspLink.Command.cs:14-16 | the buffer is fresh and holds exactly the packed request |
| Devices.NewDescriptor | EspMon/EspLink/EspDevice.cs:105 | a new descriptor is of the chip asked for and has the default RAM block 0x1800 |
| Devices.StatusBytesLength | EspMon/EspLink/Devices/Esp32Device.cs:41 | status replies are 2 bytes long under the stub and 4 under the ROM loader |
| Devices.FlashWriteSize | EspMon/EspLink/Devices/Esp32S3Device.cs:119-127 | the flash block is 0x4000 exactly for an ESP32-S3 running the stub, and the default 0x400 otherwise |
| Devices.Spi | EspMon/EspLink/Devices/Esp32Device.cs:43-50 | both chips override the SPI length-register offsets, so neither uses the old packed length encoding |
| Devices.FlashSizesTable | EspMon/EspLink/Devices/Esp32Device.cs:104-113 | the size table has exactly the ids 0x00..0x70 in steps of 0x10, and id 0x10·k maps to 1024·2^k |
| Devices.FlashSizeOf | EspMon/EspLink/Devices/Esp32Device.cs:10-23 | the size byte is bits 16..23 of the flash id; a listed byte gives a size between 1 MB and 128 MB in KB, any other byte gives -1 |
| Devices.FindChip | EspMon/EspLink/EspLink.Device.cs:12-32 | the chip found is a registered one whose magic (or id) equals the value; none is found only when no registered chip has it |
| Devices.RegistrySelects | EspMon/EspLink/EspLink.Device.cs:12-32 | magic 0x00F01D83 selects the ESP32 and 0x09 the ESP32-S3; id 0 selects the first type scanned (the ESP32); every other value selects nothing |
| Registers.ReadRegRequest | EspMon/EspLink/EspLink.Registers.cs:9-17 | READ_REG is opcode 0x0A with checksum 0 and a 4-byte payload holding the address |
| Registers.WriteRegRequest | EspMon/EspLink/EspLink.Registers.cs:19-28 | WRITE_REG is opcode 0x09 with checksum 0 and a 16-byte payload, 32 bytes when a post-write delay is asked for |
| Registers.WriteRegPayload | EspMon/EspLink/EspLink.Registers.cs:21-26 | the payload is the record {address, value, mask, delay}, followed when delayAfterUSec ≠ 0 by {0x60000078, 0, 0, delayAfterUSec} |
| Registers.WriteRegDecodes | EspMon/EspLink/EspLink.Registers.cs:22 | the first four words of the payload read back as address, value, mask and delay |
| Registers.WriteRegDelayDecodes | EspMon/EspLink/EspLink.Registers.cs:25 | the second record reads back as 0x60000078, 0, 0 and the post-write delay |
| Registers.Frames | EspMon/EspLink/EspLink.Registers.cs:16-27 | one request frame per register access |
| Registers.ReadRegOn | EspMon/EspLink/EspLink.Registers.cs:9-17 | a register read on a port that is or can be opened sends exactly the READ_REG frame and leaves the port open; otherwise NullReference with nothing changed; its errors are CommandResultAsync's |
| Registers.WriteRegOn | EspMon/EspLink/EspLink.Registers.cs:19-28 | a register write sends exactly the WRITE_REG frame on an openable port, else NullReference with nothing changed |
| Registers.AccessOn | EspMon/EspLink/EspLink.Registers.cs:9-28 | any single register access sends exactly its own request frame, or fails with NullReference on a port that cannot open |
| Registers.Giving | EspMon/EspLink/EspLink.Registers.cs:9-28 | replacing a run's value keeps its success or failure |
| Registers.BusOfDrives | EspMon/EspLink/EspLink.Registers.cs:9-28 | the link's own read and write steps are a bus that drives its target |
| Registers.DrivesSends | EspMon/EspLink/EspLink.Registers.cs:9-28 | every access of a driving bus sends its own request frame |
| Registers.AccessSendsFrames | EspMon/EspLink/EspLink.Registers.cs:9-28 | the access step sends exactly one request frame per access |
| Registers.AccessesOkTrace | EspMon/EspLink/EspLink.Registers.cs:9-28 | a sequence of accesses that succeeds performs all of them, in order |
| Registers.AccessesSend | EspMon/EspLink/EspLink.Registers.cs:9-28 | a successful sequence of accesses sends exactly their frames, in order |
| Registers.AccessesFailPrefix | EspMon/EspLink/EspLink.Registers.cs:9-28 | a failing sequence stops at the failing access: it has performed a non-empty prefix of the sequence and nothing after |
| Registers.AccessesAppend | EspMon/EspLink/EspLink.Registers.cs:9-28 | running a + b is running a, then b from where a left the wire |
| Registers.AccessesAnyDone | EspMon/EspLink/EspLink.Registers.cs:9-28 | the result and wire of a sequence do not depend on the trace recorded before it |
| Registers.ReadRegAnswer | EspMon/EspLink/EspLink.Registers.cs:16 | a matching READ_REG reply with data gives its header value, with the request sent and the reply consumed |
| Registers.ReadRegEmptyAnswer | EspMon/EspLink/EspLink.Registers.cs:16 | a matching reply with no data gives "Unable to read value" |
| Registers.WriteRegStatus | EspMon/EspLink/EspLink.Registers.cs:27 | a WRITE_REG reply with status 0 succeeds with the body; a nonzero status fails with its code; the reply is consumed |
| Registers.ReadReg | EspMon/EspLink/EspLink.Registers.cs:9-17 | ReadRegAsync changes the wire and returns the value exactly as ReadRegOn says |
| Registers.WriteReg | EspMon/EspLink/EspLink.Registers.cs:19-28 | WriteRegAsync changes the wire and returns exactly as WriteRegOn says |
| Registers.BusRead | EspMon/EspLink/EspLink.Registers.cs:9-17 | a read through the bus is the bus's read step of the wire |
| Registers.BusWrite | EspMon/EspLink/EspLink.Registers.cs:19-28 | a write through the bus is the bus's access step for that write |
| Registers.WriteNext | EspMon/EspLink/EspLink.Registers.cs:19-28 | performing the next write of a sequence leaves the rest of the sequence to run from the new wire, or ends it with the write's error |
| Memory.BeginWriteMemory | EspMon/EspLink/EspLink.Memory.cs:9-19 | MEM_BEGIN is a checked command whose effect and result are MemBeginOn's |
| Memory.MemBlockPayload | EspMon/EspLink/EspLink.Memory.cs:23-25 | a block payload is {length, seq, 0, 0} followed by the block itself |
| Memory.WriteMemoryBlock | EspMon/EspLink/EspLink.Memory.cs:20-31 | MEM_DATA sends data[index..index+length) as a checked command, as MemBlockOn says |
| Memory.FinishTimeout | EspMon/EspLink/EspLink.Memory.cs:39 | MEM_END waits 3000 ms under the stub and 200 ms under the ROM loader |
| Memory.MemEndPayload | EspMon/EspLink/EspLink.Memory.cs:41 | the MEM_END payload is {entry == 0 ? 1 : 0, entry} |
| Memory.MemEndOn | EspMon/EspLink/EspLink.Memory.cs:32-50 | under the ROM loader MEM_END always succeeds (errors are swallowed); without a device it fails exactly under the stub, with nothing sent |
| Memory.FinishWriteMemory | EspMon/EspLink/EspLink.Memory.cs:32-50 | FinishWriteMemoryAsync changes the wire and returns exactly as MemEndOn says |
| Memory.MemOpcodeBytes | EspMon/EspLink/EspDevice.cs:69-71 | the MEM_BEGIN and MEM_DATA opcodes pass the (byte) cast unchanged |
| Memory.MemBeginSendsOneFrame | EspMon/EspLink/EspLink.Memory.cs:12-18 | with a device and an openable port, MEM_BEGIN sends one frame carrying {size, blocks, blocksize, offset} with checksum 0 |
| Memory.MemBlockSendsOneFrame | EspMon/EspLink/EspLink.Memory.cs:20-31 | MEM_DATA sends one frame whose checksum is the XOR fold (seed 0xEF) of the block bytes |
| Memory.MemBlockOkSends | EspMon/EspLink/EspLink.Memory.cs:20-31 | a successful MEM_DATA had its range inside the data, sent exactly that frame and left the port open |
| Baud.BaudPayload | EspMon/EspLink/EspLink.SerialPort.cs:113-115 | the CHANGE_BAUDRATE payload is 8 bytes: the new rate, then the old rate under the stub and 0 under the ROM loader |
| Baud.SetBaudRate | EspMon/EspLink/EspLink.SerialPort.cs:104-123 | the new baud is recorded first; without a device or outside the bootloader nothing else changes; otherwise the wire changes as BaudOn says, and after success the open port runs at the new rate and its log ends with the switch, the 50 ms wait and the discard |
| Baud.CommandOnOpens | EspMon/EspLink/EspLink.Command.cs:12-18 | a command that succeeds has sent its request, so the port is open afterwards |
| Baud.SwitchPort | EspMon/EspLink/EspLink.SerialPort.cs:117-122 | an open port is switched to the new rate, waited on for 50 ms and its input discarded; a closed port is left alone; the wire does not change |
| Baud.BaudRate | EspMon/EspLink/EspLink.SerialPort.cs:127-140 | setting the current value does nothing; another value goes through SetBaudRateAsync with the default timeout |
| Baud.BaudOpcodeByte | EspMon/EspLink/EspDevice.cs:80 | the CHANGE_BAUDRATE opcode 0x0F passes the (byte) cast unchanged |
| Baud.BaudChangeSendsOneFrame | EspMon/EspLink/EspLink.SerialPort.cs:113-116 | on a ready link whose port opens, exactly one CHANGE_BAUDRATE frame is sent, with checksum 0 and no status check |
| Baud.BaudChangeOfflineIsLocal | EspMon/EspLink/EspLink.SerialPort.cs:106-111 | without a device, or outside the bootloader, the change sends and reads nothing and succeeds |
| Hooks.FlashId | EspMon/EspLink/Devices/Esp32Device.cs:24-32 | FLASH_ID is the SPI command RDID (0x9F) with no data and 24 read bits, run with the default timeout; its result, wire and attach flag are FlashIdOn's |
| Hooks.FlashSizeResult | EspMon/EspLink/Devices/Esp32Device.cs:10-23 | FlashSize fails exactly when FLASH_ID fails, with its fault, and otherwise is the table lookup of the id |
| Hooks.FlashSize | EspMon/EspLink/Devices/Esp32Device.cs:10-23 | the FlashSize property reads FLASH_ID over SPI and looks up byte 2 of it |
| Hooks.FlashSizeLookup | EspMon/EspLink/Devices/Esp32Device.cs:104-113 | size byte 0x10·k (k < 8) gives 1024·2^k KB |
| Hooks.WatchdogFirstWrites | EspMon/EspLink/Devices/Esp32S3Device.cs:165-170 | four writes come before the SWD_CONF read |
| Hooks.WatchdogLastWrites | EspMon/EspLink/Devices/Esp32S3Device.cs:172-173 | two writes come after it |
| Hooks.WatchdogWrites | EspMon/EspLink/Devices/Esp32S3Device.cs:165-173 | the watchdog sequence writes six registers |
| Hooks.OtgTarget | EspMon/EspLink/Devices/Esp32S3Device.cs:178-183 | the USB-OTG check keeps the chip (and lowers only ESP_RAM_BLOCK) |
| Hooks.Disable | EspMon/EspLink/Devices/Esp32S3Device.cs:164-173 | the method performs the watchdog writes and the read exactly as DisableOn says |
| Hooks.WritePair | EspMon/EspLink/Devices/Esp32S3Device.cs:165-173 | two awaited writes of a sequence leave the rest of the sequence to run from the new wire, or end it with the first error |
| Hooks.DisableLast | EspMon/EspLink/Devices/Esp32S3Device.cs:171-173 | SWD_CONF is read, then written back with the auto-feed bit, then the protection is re-locked, as the run function says |
| Hooks.DisableWatchdogs | EspMon/EspLink/Devices/Esp32S3Device.cs:158-175 | DisableWatchdogsAsync reads the console number and on USB-JTAG/Serial performs the watchdog sequence, exactly as WatchdogsOn says |
| Hooks.JtagCheck | EspMon/EspLink/Devices/Esp32S3Device.cs:184-188 | the hook's second console read calls DisableWatchdogsAsync on USB-JTAG/Serial, as JtagCheckOn says |
| Hooks.S3Connected | EspMon/EspLink/Devices/Esp32S3Device.cs:176-189 | the S3 hook's wire and result are S3HookOn's, and the descriptor changes only in ESP_RAM_BLOCK |
| Hooks.DeviceConnected | EspMon/EspLink/EspDevice.cs:159-166 | without a device the call fails with NullReference and changes nothing; otherwise the chip's hook runs as HookOn says |
| Hooks.Writes | EspMon/EspLink/Devices/Esp32S3Device.cs:158-175 | the writes of a trace are only writes, at most as many as the trace |
| Hooks.WritesAppend | EspMon/EspLink/Devices/Esp32S3Device.cs:158-175 | the writes of a concatenation are those of its parts |
| Hooks.Esp32HookIsEmpty | EspMon/EspLink/EspDevice.cs:159-162 | the ESP32's hook sends nothing, reads and writes no register and keeps ESP_RAM_BLOCK |
| Hooks.S3RamBlock | EspMon/EspLink/Devices/Esp32S3Device.cs:178-183 | ESP_RAM_BLOCK becomes 0x800 exactly when the first console read succeeds with console number 3 (USB-OTG), and is kept otherwise |
| Hooks.JtagCheckOnlyReads | EspMon/EspLink/Devices/Esp32S3Device.cs:184-188 | unless both console reads say USB-JTAG/Serial (4), the second check performs one or two reads and nothing else |
| Hooks.S3HookWithoutJtagWritesNothing | EspMon/EspLink/Devices/Esp32S3Device.cs:176-189 | unless the console is USB-JTAG/Serial, the S3 hook performs at most three reads and writes no register |
| Hooks.Reads | EspMon/EspLink/Devices/Esp32S3Device.cs:147 | n reads of one register are n accesses |
| Hooks.WritesOfReads | EspMon/EspLink/Devices/Esp32S3Device.cs:147 | reads write nothing |
| Hooks.DisableWritesWatchdogs | EspMon/EspLink/Devices/Esp32S3Device.cs:164-173 | a successful disable performs the four writes, the SWD_CONF read and the two writes, in that order, and writes exactly the six watchdog registers |
| Hooks.WritesOfWrites | EspMon/EspLink/Devices/Esp32S3Device.cs:165-173 | a run made only of writes is its own write list |
| Hooks.AutoFeedKeepsBits | EspMon/EspLink/Devices/Esp32S3Device.cs:172 | the SWD_CONF write keeps every bit of the value read and sets bit 31 |
| Selection.CreateDevice | EspMon/EspLink/EspLink.Device.cs:12-32 | the first registered chip with the magic (or id) becomes the device, a fresh descriptor; with none, NotSupported and the device is left as it was |
| Spi.UserFlags | EspMon/EspLink/EspLink.SpiFlash.cs:187-207 | the SPI_USR word always has bit 31; it has bit 28 iff read_bits > 0, bit 27 iff there is data, bit 30 iff addr_len > 0, bit 29 iff dummy_len > 0, and no bit below 27 |
| Spi.NewLengthFlags | EspMon/EspLink/EspLink.SpiFlash.cs:25-33 | the new encoding's USR1 flags are zero exactly when neither dummy nor address length exceeds 1, so USR1 is then not written |
| Spi.NewLengthFields | EspMon/EspLink/EspLink.SpiFlash.cs:25-31 | while the fields fit, USR1's low 26 bits read back as dummy-1 and its top 6 bits as addr-1 |
| Spi.ChipRegs | EspMon/EspLink/EspLink.SpiFlash.cs:169-181 | both chips use the new length registers |
| Spi.ChipRegsFromLayout | EspMon/EspLink/EspLink.SpiFlash.cs:169-181 | SPI_CMD is at the base, SPI_ADDR at base + 4, and USR, USR1, USR2 and W0 at the base plus the chip's offsets |
| Spi.ChipLengthRegsFromLayout | EspMon/EspLink/EspLink.SpiFlash.cs:12-17 | the MOSI and MISO length registers sit at the base plus their offsets, and the new encoding is chosen exactly when SPI_MOSI_DLEN_OFFS is not -1 |
| Spi.NewLengthWrites | EspMon/EspLink/EspLink.SpiFlash.cs:9-36 | the new encoding writes MOSI_DLEN only for data, MISO_DLEN only for read bits, and USR1 only when its flags are nonzero |
| Spi.OldLengthFields | EspMon/EspLink/EspLink.SpiFlash.cs:37-59 | the old packed word reads back as dummy-1 in bits 0-7, miso-1 from bit 8, mosi-1 from bit 17 and addr-1 from bit 26, while the fields fit |
| Spi.OldLengthWrites | EspMon/EspLink/EspLink.SpiFlash.cs:58 | the old encoding always writes exactly one word to USR1 |
| Spi.AddrWord24 | EspMon/EspLink/EspLink.SpiFlash.cs:221-226 | a 24-bit address is left-aligned in SPI_ADDR (shifted by 8) and reads back from its top 24 bits |
| Spi.DataWord | EspMon/EspLink/EspLink.SpiFlash.cs:239-241 | a data word is its four bytes byte-swapped: the first byte ends up most significant |
| Spi.Pad4 | EspMon/EspLink/EspLink.SpiFlash.cs:233 | PadTo(data, 4, 0) keeps the data and adds fewer than four zero bytes to reach a whole number of words |
| Spi.Pad4Unique | EspMon/EspLink/EspLink.SpiFlash.cs:233 | that padding is the only one with those properties |
| Spi.DataWrites | EspMon/EspLink/EspLink.SpiFlash.cs:234-245 | one register write per padded data word |
| Spi.ShiftedOut | EspMon/EspLink/EspLink.SpiFlash.cs:239-245 | a word puts four bytes on the SPI bus |
| Spi.DataWritesCarryData | EspMon/EspLink/EspLink.SpiFlash.cs:233-245 | the words written to W0, W0+4, ... put exactly the padded data on the bus, first byte first |
| Spi.Polls | EspMon/EspLink/EspLink.SpiFlash.cs:67-74 | n polls are n reads of SPI_CMD |
| Spi.PollsCons | EspMon/EspLink/EspLink.SpiFlash.cs:67-74 | one more poll goes in front of the others |
| Spi.PadsWord | EspMon/EspLink/EspLink.SpiFlash.cs:77-88 | the pad word holds clk, q, d and cs from the 5-bit fields of RDATA5 at bits 0, 6, 12 and 18, hd from bits 4-8 of RDATA3 at bit 24, and zeros elsewhere |
| Spi.SetLengthsNew | EspMon/EspLink/EspLink.SpiFlash.cs:9-36 | SpiSetLengthsAsync performs the new-encoding writes in order, each awaited, and stops at the first failure |
| Spi.WriteIf | EspMon/EspLink/EspLink.SpiFlash.cs:19-35 | a conditional write is performed only under its condition |
| Spi.SetLengthsOld | EspMon/EspLink/EspLink.SpiFlash.cs:37-59 | SpiSetLengthsOldAsync performs its one write |
| Spi.WriteData | EspMon/EspLink/EspLink.SpiFlash.cs:231-256 | non-empty data is padded to words and written word by word from W0 |
| Spi.WriteWords | EspMon/EspLink/EspLink.SpiFlash.cs:234-245 | the loop with next_reg writes padded word i to W0 + 4i, in order, until a write fails |
| Spi.DataWritesStep | EspMon/EspLink/EspLink.SpiFlash.cs:237-245 | one round of the loop writes the current word and leaves the rest for the next register |
| Spi.WaitDone | EspMon/EspLink/EspLink.SpiFlash.cs:60-76 | SpiWaitDoneAsync polls SPI_CMD as PollOn says, at most 10 times |
| Spi.ReadPads | EspMon/EspLink/EspLink.SpiFlash.cs:77-88 | SpiReadPadsAsync reads RDATA5 then RDATA3 and returns the pad word |
| Spi.AttachPayload | EspMon/EspLink/EspLink.SpiFlash.cs:104-116 | the attach payload is {hspi_arg, 0} (8 bytes) under the ROM and {hspi_arg} (4 bytes) under the stub |
| Spi.AttachOn | EspMon/EspLink/EspLink.SpiFlash.cs:89-120 | an attached link attaches again without sending anything |
| Spi.SpiFlashAttach | EspMon/EspLink/EspLink.SpiFlash.cs:89-120 | the wire changes as AttachOn says, and the attached flag is set exactly when the checked command succeeded |
| Spi.Configure | EspMon/EspLink/EspLink.SpiFlash.cs:209-256 | the configuration writes go out in order: lengths, USR, USR2, address, data |
| Spi.WritePhases | EspMon/EspLink/EspLink.SpiFlash.cs:218-256 | the phase flags go to USR and 7<<28 ∣ cmd to USR2, then the address and data |
| Spi.WriteOperands | EspMon/EspLink/EspLink.SpiFlash.cs:221-256 | the address is written iff addr_len > 0, then the data words, or W0 := 0 when there is no data |
| Spi.Finish | EspMon/EspLink/EspLink.SpiFlash.cs:259-270 | the end of the command runs as FinishOn says: wait, read W0, restore USR and USR2 |
| Spi.Restore | EspMon/EspLink/EspLink.SpiFlash.cs:262-263 | USR and then USR2 get their saved values back |
| Spi.UserCommand | EspMon/EspLink/EspLink.SpiFlash.cs:184-270 | the register part of SpiFlashCommandAsync runs exactly as UserCommandOn says |
| Spi.Execute | EspMon/EspLink/EspLink.SpiFlash.cs:209-270 | after USR and USR2 are saved: configure, set the start bit, then finish |
| Spi.AttachOpcodeByte | EspMon/EspLink/EspDevice.cs:78 | the SPI_ATTACH opcode 0x0D passes the (byte) cast unchanged |
| Spi.AttachSendsOneFrame | EspMon/EspLink/EspLink.SpiFlash.cs:104-118 | an attach that is due sends exactly one SPI_ATTACH frame with its payload and checksum 0 |
| Spi.PadsAttach | EspMon/EspLink/EspLink.SpiFlash.cs:128-137 | the first attach (ESP32 under ROM: read the pads, attach with them) runs as PadsAttachOn says |
| Spi.AttachPhase | EspMon/EspLink/EspLink.SpiFlash.cs:128-139 | both attaches run as AttachPhaseOn says |
| Spi.RunChecked | EspMon/EspLink/EspLink.SpiFlash.cs:145-270 | the argument checks and the register sequence run as CheckedRun says |
| Spi.SpiFlashCommand | EspMon/EspLink/EspLink.SpiFlash.cs:121-271 | SpiFlashCommandAsync: attach, check, run; the result, wire and attached flag are SpiCommandOn's |
| Spi.PollOnTrace | EspMon/EspLink/EspLink.SpiFlash.cs:67-74 | the wait reads SPI_CMD at least once and at most n times, and does nothing else |
| Spi.PollSucceedsAt | EspMon/EspLink/EspLink.SpiFlash.cs:67-74 | for any k ≤ n: when the first k-1 reads show the busy bit and the k-th shows it clear, the wait succeeds after exactly k reads |
| Spi.PollTimesOut | EspMon/EspLink/EspLink.SpiFlash.cs:67-75 | when all n reads show the busy bit, the wait raises TimeoutException after n reads |
| Spi.Copies | EspMon/EspLink/EspLink.SpiFlash.cs:67-74 | n copies of a request frame |
| Spi.SerialRead | EspMon/EspLink/EspLink.SpiFlash.cs:69 | a READ_REG reply at the head of the queue gives its value to the poll and is consumed |
| Spi.QueueGivesReads | EspMon/EspLink/EspLink.SpiFlash.cs:67-74 | a queue of READ_REG replies makes successive reads give those values in order |
| Spi.QueueAfterReads | EspMon/EspLink/EspLink.SpiFlash.cs:67-74 | those reads send one READ_REG request each and leave the rest of the queue |
| Spi.FinishWaitFails | EspMon/EspLink/EspLink.SpiFlash.cs:259 | a failed wait ends the command at once, without reading W0 or restoring USR and USR2 |
| Spi.FinishShape | EspMon/EspLink/EspLink.SpiFlash.cs:259-270 | a successful finish polled 1 to 10 times, read W0, restored USR then USR2, and returns W0 byte-swapped |
| Spi.FinishTrace | EspMon/EspLink/EspLink.SpiFlash.cs:260-263 | the W0 read is followed by exactly the two restore writes |
| Spi.UserCommandShape | EspMon/EspLink/EspLink.SpiFlash.cs:184-270 | a successful command read USR and USR2 first, wrote the configuration and the start bit, polled, read W0 and wrote back exactly the USR and USR2 values it had read |
| Spi.AttachPhaseShape | EspMon/EspLink/EspLink.SpiFlash.cs:128-139 | once attached the attaches send nothing and succeed; otherwise they succeed only by attaching, and read registers only under the ESP32 ROM: RDATA5 then RDATA3 |
| Spi.SpiCommandChecksAfterAttach | EspMon/EspLink/EspLink.SpiFlash.cs:128-148 | with read_bits > 32 the link still attaches, then raises ArgumentOutOfRange without touching a register; an attached link stays attached |
| Stub.Remove | EspMon/EspLink/EspLink.Stub.cs:38 | String.Replace(c, "") leaves no c, adds no character, and changes a string without c not at all |
| Stub.Lower | EspMon/EspLink/EspLink.Stub.cs:38 | ToLowerInvariant on ASCII leaves no capital and keeps every other character |
| Stub.LowerAll | EspMon/EspLink/EspLink.Stub.cs:38 | lower-casing works character by character and keeps the length |
| Stub.ResourceName | EspMon/EspLink/EspLink.Stub.cs:38 | the resource name has no "(", ")" or "-" and no capital, and is no longer than the chip name |
| Stub.LowerAllKeeps | EspMon/EspLink/EspLink.Stub.cs:38 | a name without capitals is left as it is |
| Stub.ResourceNameIdempotent | EspMon/EspLink/EspLink.Stub.cs:38 | normalising a resource name again changes nothing |
| Stub.Esp32ResourceName | EspMon/EspLink/EspLink.Stub.cs:38 | the ESP32's stub resource name is "esp32" |
| Stub.LowerEsp32 | EspMon/EspLink/EspLink.Stub.cs:38 | "ESP32" lower-cases to "esp32" |
| Stub.FirstMatch | EspMon/EspLink/EspLink.Stub.cs:44-53 | the index found is the first resource whose name ends with the key, and none is found only when no name does |
| Stub.StubOf | EspMon/EspLink/EspLink.Stub.cs:31-88 | without a device, "Not connected"; with one, NotSupported when no index resource matches; a stub found carries the normalised chip name |
| Stub.StubOfFirst | EspMon/EspLink/EspLink.Stub.cs:41-57 | the stub fails exactly when no resource name ends with ".Stubs.<name>.idx", and otherwise is made of the first matching resource's entry point, text and data |
| Stub.GetStub | EspMon/EspLink/EspLink.Stub.cs:31-88 | the search loop computes StubOf |
| Stub.Blocks | EspMon/EspLink/EspLink.Stub.cs:92 | the block count is ceil(len/B): the fewest blocks of B bytes that cover the data, and 0 exactly for no data |
| Stub.BlockStarts | EspMon/EspLink/EspLink.Stub.cs:98 | every block starts inside the data |
| Stub.ChunkEnd | EspMon/EspLink/EspLink.Stub.cs:98-103 | block k ends at min((k+1)·B, len) |
| Stub.Chunk | EspMon/EspLink/EspLink.Stub.cs:98-104 | each block holds 1 to B bytes, and every block but the last exactly B |
| Stub.ChunkSlice | EspMon/EspLink/EspLink.Stub.cs:98-104 | the bytes WriteMemoryBlockAsync sends for block k are data[k·B .. min((k+1)·B, len)) |
| Stub.InnerChunkFull | EspMon/EspLink/EspLink.Stub.cs:99-103 | an inner block is cut at exactly (k+1)·B |
| Stub.ChunksFrom | EspMon/EspLink/EspLink.Stub.cs:95-105 | the blocks from k on concatenate to data[k·B..] |
| Stub.ChunksCover | EspMon/EspLink/EspLink.Stub.cs:95-105 | the blocks concatenate to the whole data, in order |
| Stub.BlockWithIsBlock | EspMon/EspLink/EspLink.Stub.cs:95-105 | the block step obeys the block equation the loop relies on |
| Stub.BlockWithAt | EspMon/EspLink/EspLink.Stub.cs:98-104 | block step k is MEM_DATA of data[k·B..] with seq k |
| Stub.BlockRange | EspMon/EspLink/EspLink.Stub.cs:98-103 | fromOffs is seq·B and toWrite is min(len - fromOffs, B) |
| Stub.WriteBlock | EspMon/EspLink/EspLink.Stub.cs:98-104 | one round of the loop is the block step of its sequence number |
| Stub.WriteBlocks | EspMon/EspLink/EspLink.Stub.cs:95-105 | the loop sends blocks 0..n-1 in order and stops at the first failure |
| Stub.WriteStubEntry | EspMon/EspLink/EspLink.Stub.cs:89-107 | WriteStubEntryAsync: one MEM_BEGIN(len, ceil(len/B), B, offset), then the blocks, exactly as StubEntryOn says |
| Stub.FramesFrom | EspMon/EspLink/EspLink.Stub.cs:95-105 | the frames of blocks k..n-1 |
| Stub.EntryFrames | EspMon/EspLink/EspLink.Stub.cs:94-105 | an entry sends one frame more than it has blocks |
| Stub.BlocksOnSends | EspMon/EspLink/EspLink.Stub.cs:95-105 | successful block writes send exactly their frames, in order |
| Stub.BeginThenBlocks | EspMon/EspLink/EspLink.Stub.cs:94-105 | the begin frame comes before all the block frames |
| Stub.BlockOnSends | EspMon/EspLink/EspLink.Stub.cs:104 | a successful block write sends exactly that block's MEM_DATA frame |
| Stub.BlockWithSends | EspMon/EspLink/EspLink.Stub.cs:95-105 | every block step sends its own frame |
| Stub.StubEntryBegins | EspMon/EspLink/EspLink.Stub.cs:91-94 | a successful entry had a device with a positive RAM block and first sent MEM_BEGIN(len, ceil(len/B), B, offset), then the blocks |
| Stub.StubEntrySent | EspMon/EspLink/EspLink.Stub.cs:89-107 | a successful entry sends exactly MEM_BEGIN and the ceil(len/B) block frames, in order, with seq 0.. and each block's bytes |
| Stub.SentinelOn | EspMon/EspLink/EspLink.Stub.cs:150 | waiting for the sentinel sends nothing |
| Stub.RunStubOn | EspMon/EspLink/EspLink.Stub.cs:126-159 | "Not connected" without a device, "Stub already running" under the stub, NotSupported without a stub for the chip, each with nothing sent |
| Stub.Load | EspMon/EspLink/EspLink.Stub.cs:137-146 | the text segment, then the data segment, then MEM_END with the entry point, as LoadOn says |
| Stub.Sentinel | EspMon/EspLink/EspLink.Stub.cs:150-158 | one frame is read, and IsStub becomes true exactly when it was OHAI; otherwise IOException |
| Stub.RunStub | EspMon/EspLink/EspLink.Stub.cs:126-159 | RunStubAsync changes the wire as RunStubOn says, and IsStub is set exactly when it succeeds (and was already set if it was) |
| Stub.Start | EspMon/EspLink/EspLink.Stub.cs:137-158 | loading then the sentinel; IsStub becomes true exactly on success |
| Stub.SentinelOfOhai | EspMon/EspLink/EspLink.Stub.cs:150-154 | an OHAI frame at the head of the queue is taken and accepted |
| Stub.SentinelOfOther | EspMon/EspLink/EspLink.Stub.cs:150-158 | any other frame is taken and gives "The stub was not successfully executed" |
| Stub.LoadSent | EspMon/EspLink/EspLink.Stub.cs:140-146 | a successful load sends the text entry's frames, then the data entry's, then one MEM_END frame |
| Stub.MemEndOpcodeByte | EspMon/EspLink/EspDevice.cs:70 | the MEM_END opcode passes the (byte) cast unchanged |
| Reset.Apply | EspMon/EspLink/EspLink.Reset.cs:35-105 | NoReset always succeeds and a custom strategy answers as given; every built-in strategy fails exactly when the port is null or closed, and then touches nothing; a success appends exactly the strategy's DTR/RTS writes to the port log and leaves the lines where those writes put them, with open state, baud and handshake unchanged |
| Reset.LineAfterSnoc | EspMon/EspLink/EspLink.Reset.cs:38-54 | the level of a control line after one more write is that write's level when it targets the line, and otherwise the level before it |
| Reset.ClassicEndsLow | EspMon/EspLink/EspLink.Reset.cs:92-105 | the classic bootloader sequence leaves both DTR and RTS low, whatever they were before |
| Reset.SerialJtagEndsLow | EspMon/EspLink/EspLink.Reset.cs:35-57 | the USB-Serial/JTAG bootloader sequence leaves both DTR and RTS low, whatever they were before |
| Reset.HardResetEndsWithRtsLow | EspMon/EspLink/EspLink.Reset.cs:58-79 | both hard-reset variants leave RTS low and DTR where it was |
| Reset.HardResetRaisesRtsFirst | EspMon/EspLink/EspLink.Reset.cs:61 | a hard reset starts by asserting RTS (pulling EN low) |
| Reset.ResetOutcome | EspMon/EspLink/EspLink.Reset.cs:120-140 | as written: Reset throws IOException exactly when the port opens and all three runs of the strategy refuse; a port that does not open returns normally |
| Reset.ResetOutcomeIntended | EspMon/EspLink/EspLink.Reset.cs:110 | corrected: Reset succeeds exactly when the port opens and some run of the strategy succeeds, and otherwise reports the IOException its documentation promises |
| Reset.ResetOutcomesDiffer | EspMon/EspLink/EspLink.Reset.cs:121 | the two outcomes agree whenever the port opens, and differ exactly on a port that does not open, where the code returns normally |
| Reset.Reset | EspMon/EspLink/EspLink.Reset.cs:111-147 | Reset closes the link, runs the given strategy (HardReset when none) on the reopened port after switching the handshake off and discarding input, stops at the first of three runs that succeeds, and closes again; the port log, the final line levels and the result are stated exactly, and the link ends closed with no device and no SPI attachment |
| Reset.ResetLog | EspMon/EspLink/EspLink.Reset.cs:120-145 | the log of a Reset on a port that opens is the open, the handshake and discard, the successful strategy writes (none when all runs fail) and the final close |
| Reset.Retry | EspMon/EspLink/EspLink.Reset.cs:130-140 | the retry loop succeeds exactly when one of the three runs succeeds; on success the log grows by that run's writes only, on failure by nothing, and the port stays open at the same baud and handshake |
| Reset.ResetFailsOnlyByRefusal | EspMon/EspLink/EspLink.Reset.cs:130-140 | the three runs all fail only for a custom strategy whose first three answers are all false: every built-in strategy succeeds on an open port |
| Ports.Upper | EspMon/EspLink/EspLink.SerialPort.cs:181 | the case fold used by the ignoring-case comparisons maps exactly the ASCII lower-case letters to their upper-case letters and leaves every other character alone |
| Ports.Trim | EspMon/EspLink/EspLink.SerialPort.cs:184 | trimming (the leading and trailing white space NumberStyles.Number allows) never lengthens the text, leaves no white space at either end, and leaves text without white space as it was |
| Ports.DotAt | EspMon/EspLink/EspLink.SerialPort.cs:184 | the decimal point is found at the first '.', and the length means there is none |
| Ports.Ungrouped | EspMon/EspLink/EspLink.SerialPort.cs:184 | removing the thousands separators never lengthens the text, leaves only digits when only digits and commas were there, and leaves text without commas alone |
| Ports.ParseUnsigned | EspMon/EspLink/EspLink.SerialPort.cs:184 | an unsigned number without point or separator is accepted only when it is a non-empty run of digits, and its value is those digits read in base ten |
| Ports.Signed | EspMon/EspLink/EspLink.SerialPort.cs:184 | applying the sign succeeds exactly when the magnitude fits a 32-bit int (up to 2^31 for a negative number, below 2^31 otherwise), and the value is the magnitude with that sign |
| Ports.ParseInt | EspMon/EspLink/EspLink.SerialPort.cs:184 | int.TryParse with NumberStyles.Number and the invariant culture: every accepted value lies in the 32-bit signed range |
| Ports.ParseIntGrouped | EspMon/EspLink/EspLink.SerialPort.cs:184 | a thousands separator is accepted anywhere in the integer part: "2,5" parses as 25 |
| Ports.GroupedUnsigned | EspMon/EspLink/EspLink.SerialPort.cs:184 | the unsigned part of "2,5" is 25 |
| Ports.GroupedDigits | EspMon/EspLink/EspLink.SerialPort.cs:184 | the digits of "2,5" without its separator read as 25 |
| Ports.ParseIntZeroFraction | EspMon/EspLink/EspLink.SerialPort.cs:184 | a fraction of zeros is accepted: "3.0" parses as 3 |
| Ports.ParseIntFraction | EspMon/EspLink/EspLink.SerialPort.cs:184 | a fraction that is not zero is refused: "3.5" does not parse |
| Ports.ParseIntTrailingSign | EspMon/EspLink/EspLink.SerialPort.cs:184 | a trailing sign is accepted after the number and surrounding white space is ignored: " 3 -" parses as -3 |
| Ports.ParseIntRejects | EspMon/EspLink/EspLink.SerialPort.cs:184 | a leading separator, white space between sign and digits, and a sign on both sides are refused |
| Ports.ComPortNum | EspMon/EspLink/EspLink.SerialPort.cs:177-191 | a name that is shorter than three characters or does not start with COM in any case has port number 0 |
| Ports.Decimal | EspMon/EspLink/EspLink.SerialPort.cs:184 | the decimal writing of a number is a non-empty run of digits |
| Ports.DigitsOfDecimal | EspMon/EspLink/EspLink.SerialPort.cs:184 | reading the decimal writing of a number gives the number back |
| Ports.ComPortNumOfName | EspMon/EspLink/EspLink.SerialPort.cs:177-191 | COM in any case followed by the decimal digits of a 32-bit number has that number as its port number |
| Ports.ComPortNumOfJunk | EspMon/EspLink/EspLink.SerialPort.cs:184-190 | a name whose text after the first three characters does not parse has port number 0 |
| Ports.OrdinalCompare | EspMon/EspLink/EspLink.SerialPort.cs:249 | the ordinal comparison answers -1, 0 or 1 |
| Ports.ComparePorts | EspMon/EspLink/EspLink.SerialPort.cs:243-252 | the sort comparison answers -1, 0 or 1, and a smaller port number always sorts first |
| Ports.OrdinalAntisymmetric | EspMon/EspLink/EspLink.SerialPort.cs:249 | the ordinal comparison is antisymmetric and answers 0 exactly on equal strings |
| Ports.OrdinalTransitive | EspMon/EspLink/EspLink.SerialPort.cs:249 | the ordinal comparison is transitive |
| Ports.ComparePortsAntisymmetric | EspMon/EspLink/EspLink.SerialPort.cs:243-252 | the sort comparison is antisymmetric and answers 0 exactly on equal names, so the sorted order is unique |
| Ports.ComparePortsTransitive | EspMon/EspLink/EspLink.SerialPort.cs:243-252 | the sort comparison is transitive, so it is a valid order for List.Sort |
| Ports.SortedByNumber | EspMon/EspLink/EspLink.SerialPort.cs:243-252 | in the sorted list the port numbers never go down |
| Ports.LookupFindsFirst | EspMon/EspLink/EspLink.SerialPort.cs:168-174 | the lookup finds nothing exactly when no name matches ignoring case, and otherwise finds the first matching entry |
| Ports.FindComPort | EspMon/EspLink/EspLink.SerialPort.cs:166-176 | FindComPort returns the first port whose name matches ignoring case, and ArgumentException when there is none |
| Ports.IsUsbSerialJtag | EspMon/EspLink/EspLink.Connect.cs:92-98 | IsUsbSerialJtag answers whether the link's port, looked up by name, has PID_1001 in any case; a missing port is ArgumentException and a missing PID a NullReferenceException |
| Ports.UsbJtagOfListed | EspMon/EspLink/EspLink.Connect.cs:92-98 | a port whose first listing under its name carries PID_1001 is a serial-JTAG port |
| Connect.CheckReady | EspMon/EspLink/EspLink.Connect.cs:40-53 | CheckReady passes exactly when the bootloader is entered and, when asked to check the connection, a device is set; otherwise it is InvalidOperationException |
| Connect.ReadsStep | EspMon/EspLink/EspLink.Connect.cs:61-73 | one read of SyncAsync's loop: a timeout is remembered and the reads go on, any other error ends them at once with that error, an answer lets them go on |
| Connect.SyncReadKeeps | EspMon/EspLink/EspLink.Connect.cs:65 | a read with opcode -1 sends nothing, leaves the port as it was and fails only with a reply fault or NullReferenceException |
| Connect.ReadsKeep | EspMon/EspLink/EspLink.Connect.cs:61-77 | the seven reads send nothing, leave the port open or closed as it was, and fail only with a reply fault or NullReferenceException |
| Connect.SyncReads | EspMon/EspLink/EspLink.Connect.cs:61-77 | SyncAsync's reads with its own read step send nothing, keep the port's open state and fail only with a reply fault or NullReferenceException |
| Connect.TimeoutSticks | EspMon/EspLink/EspLink.Connect.cs:69-77 | once a read has timed out the loop ends in an error, whatever the later reads answer |
| Connect.SyncTimeoutSticks | EspMon/EspLink/EspLink.Connect.cs:69-77 | a timeout in SyncAsync's reads makes SyncAsync fail even when later replies arrive |
| Connect.SyncOn | EspMon/EspLink/EspLink.Connect.cs:55-78 | SyncAsync never closes an open port and fails only with a reply fault or NullReferenceException |
| Connect.SyncOpcodeByte | EspMon/EspLink/EspLink.Connect.cs:57 | the literal opcode 0x08 SyncAsync sends is the SYNC command byte |
| Connect.SyncSendsOneFrame | EspMon/EspLink/EspLink.Connect.cs:37 | on a port that is open or opens, SyncAsync sends exactly one frame: the SYNC packet with the 36-byte payload 07 07 12 20 and 32 bytes 0x55, checksum 0 |
| Connect.Sync | EspMon/EspLink/EspLink.Connect.cs:55-78 | SyncAsync on the link returns and leaves the port exactly as the wire model of SyncAsync says, and only appends to the port log |
| Connect.SyncReadIs | EspMon/EspLink/EspLink.Connect.cs:65 | the read step used by the loop is SyncAsync's read at every wire state |
| Connect.SyncLoop | EspMon/EspLink/EspLink.Connect.cs:61-77 | the seven-read loop on the link ends with the result and the wire state of the read model, leaving the port log unchanged |
| Connect.SyncWithIsSync | EspMon/EspLink/EspLink.Connect.cs:162 | the sync step used by the tries is SyncAsync at every wire state |
| Connect.SyncTriesIgnoreBanner | EspMon/EspLink/EspLink.Connect.cs:154-178 | as written: the five tries give the same outcome whatever the banner said and whatever error came before, and a failure is always the last try's reply fault or NullReferenceException, so the boot-mode messages are never raised |
| Connect.ResetStep | EspMon/EspLink/EspLink.Connect.cs:137-138 | the reset step of an attempt discards the input and runs the strategy on the open port, appending exactly those events and leaving the wire as it was |
| Connect.ResetIsQuiet | EspMon/EspLink/EspLink.Connect.cs:137-138 | the discard and the reset strategy write no bytes to the device |
| Connect.StrategyWritesNothing | EspMon/EspLink/EspLink.Connect.cs:138 | every reset strategy only toggles control lines and waits, writing no bytes |
| Connect.HardQuiet | EspMon/EspLink/EspLink.Reset.cs:58-79 | both hard resets only toggle control lines and wait |
| Connect.ClassicQuiet | EspMon/EspLink/EspLink.Reset.cs:92-105 | the classic reset only toggles control lines and waits |
| Connect.SerialJtagQuiet | EspMon/EspLink/EspLink.Reset.cs:35-57 | the serial-JTAG reset only toggles control lines and waits |
| Connect.SyncTriesStep | EspMon/EspLink/EspLink.Connect.cs:155-169 | one try of the five: a successful sync ends them with its result and wire, a failed one leaves one try fewer with its error kept |
| Connect.SyncTriesClosed | EspMon/EspLink/EspLink.Connect.cs:155-170 | on a port that is not open every try fails at the discard, so the tries end in NullReferenceException with nothing sent |
| Connect.SyncTry | EspMon/EspLink/EspLink.Connect.cs:158-163 | one try on the link discards the input, flushes and syncs, ending as the sync model says and keeping the port open |
| Connect.SyncPhase | EspMon/EspLink/EspLink.Connect.cs:154-178 | the five tries on the link end with the result and wire state of the try model; on a closed port nothing changes |
| Connect.SyncTriesOpen | EspMon/EspLink/EspLink.Connect.cs:155-170 | the five tries on an open port end as the try model says and begin with a discard and a flush |
| Connect.ConnectAttempt | EspMon/EspLink/EspLink.Connect.cs:122-180 | ConnectAttemptAsync: NoResetNoSync changes nothing; otherwise the port is opened, reset with the given strategy unless the mode is NoReset, and synced, with the result and wire state of the attempt model and the open, discard and strategy events first in the log |
| Connect.BuildConnectStrategy | EspMon/EspLink/EspLink.Connect.cs:99-121 | the plan is the serial-JTAG reset for UsbReset mode or a PID_1001 port; else the classic reset with 50 ms and then 550 ms on Windows or an rfc2217: port; else NotImplementedException; the port lookup's own errors pass through |
| Connect.PlanShape | EspMon/EspLink/EspLink.Connect.cs:99-121 | every plan is one serial-JTAG entry or the classic pair, every error is ArgumentException, NullReferenceException or NotImplementedException, and a non-JTAG port on Windows always gets the classic pair |
| Connect.Attempts | EspMon/EspLink/EspLink.Connect.cs:206-209 | the number of attempts is at least the number given and at least the number of plan entries |
| Connect.AttemptWithIsAttempt | EspMon/EspLink/EspLink.Connect.cs:219 | the attempt step used by the loop is ConnectAttemptAsync at every wire state |
| Connect.NoResetNoSyncIsImmediate | EspMon/EspLink/EspLink.Connect.cs:124-127 | in NoResetNoSync mode the first attempt succeeds and the wire is untouched |
| Connect.AttemptStep | EspMon/EspLink/EspLink.Connect.cs:219 | one attempt on the link ends as the attempt model says |
| Connect.AttemptsStep | EspMon/EspLink/EspLink.Connect.cs:214-232 | one pass of the attempt loop: a success ends it, a failure leaves one attempt fewer with its error kept as the one to rethrow |
| Connect.ConnectLoop | EspMon/EspLink/EspLink.Connect.cs:204-236 | as written: the attempt loop ends as the loop model says, makes at least one and at most the raised number of attempts (all of them when it fails), and every attempt is given the plan's first entry, because the index only moves after a success that breaks the loop |
| Connect.ConnectedOn | EspMon/EspLink/EspLink.Connect.cs:241-248 | once a descriptor exists the link is in the bootloader and the device keeps its chip |
| Connect.AfterHook | EspMon/EspLink/EspLink.Connect.cs:243-247 | after the device's connect hook the link is in the bootloader, the device carries the hook's RAM block and the register commands are the hook's |
| Connect.ConnectFinish | EspMon/EspLink/EspLink.Connect.cs:237-248 | the tail of ConnectAsync on the link (magic read, descriptor, bootloader flag, hook, baud switch) ends with the result, wire, device and bootloader flag of the finish model, and keeps the configured baud |
| Connect.Connected | EspMon/EspLink/EspLink.Connect.cs:241-248 | the part after the descriptor is created ends as the connected model says and keeps the configured baud |
| Connect.RestoreBaud | EspMon/EspLink/EspLink.Connect.cs:244-247 | after a successful hook the baud is switched only when the configured baud is not 115200, ending as the after-hook model says |
| Connect.ConnectEnd | EspMon/EspLink/EspLink.Connect.cs:237-248 | after a successful attempt loop the input is discarded and, unless only detecting, the finish runs, ending as the end model says |
| Connect.Connect | EspMon/EspLink/EspLink.Connect.cs:189-249 | Connect/ConnectAsync on the link ends with the result, wire, device and bootloader flag of the connect model; a plan error changes nothing, and otherwise every attempt used the plan's first entry |
| Connect.FinishReadsMagic | EspMon/EspLink/EspLink.Connect.cs:240-242 | the finish starts with the magic register read: a failed read ends it; an unknown magic value is NotSupportedException with device and bootloader flag as before; otherwise the device is the registry chip with that magic value and the rest runs after the read |
| Connect.ConnectedRunsHook | EspMon/EspLink/EspLink.Connect.cs:243 | once connected, the device hook runs at the default timeout; its register commands are all that follow, its RAM block is the device's, and a failed hook ends the connect with its error |
| Connect.AfterHookSwitchesBaud | EspMon/EspLink/EspLink.Connect.cs:244-247 | after the hook nothing more is sent at 115200; otherwise exactly one CHANGE_BAUDRATE frame with the configured baud as both the new and the old rate |
| Connect.DetectingChangesNothing | EspMon/EspLink/EspLink.Connect.cs:237-238 | when only detecting, the end of ConnectAsync sends nothing, reads nothing, and leaves the device and the bootloader flag alone; it fails only when the port does not open |
| Connect.ConnectFailsWithLoop | EspMon/EspLink/EspLink.Connect.cs:233-236 | a failed attempt loop is ConnectAsync's error, with device and bootloader flag untouched; after a successful loop, only detecting leaves them untouched and sends nothing more |
| Connect.IntendedEntry | EspMon/EspLink/EspLink.Connect.cs:219-224 | corrected: the entry for attempt k is always one of the plan's entries |
| Connect.RotationTriesEveryEntry | EspMon/EspLink/EspLink.Connect.cs:219-224 | corrected: with the index moving after each attempt, the first attempts try every plan entry in order, so the 550 ms classic reset gets the second attempt, while the loop as written never uses it |
| Connect.SyncTriesIntended | EspMon/EspLink/EspLink.Connect.cs:170-178 | corrected: the intended tries leave the same wire as the written ones |
| Connect.BannerReportedAsIntended | EspMon/EspLink/EspLink.Connect.cs:170-178 | corrected: the intended tries succeed exactly when the written ones do and agree without a banner; after a banner their failure is the boot-mode IOException, which the written tries never raise |
| Flash.FlashBlockSize | EspMon/EspLink/EspLink.Flash.cs:16-19 | the block size is never 0: a block size of 0 means the device's FLASH_WRITE_SIZE and any other is kept |
| Flash.CeilDivU32 | EspMon/EspLink/EspLink.Flash.cs:20-21 | the uint block count (n + b - 1) / b is the ceiling of n / b whenever the sum does not pass 2^32 |
| Flash.CeilDivU32Wraps | EspMon/EspLink/EspLink.Flash.cs:20 | the uint sum does wrap: a compressed size of 2^32 - 1 in blocks of 0x400 counts as no blocks at all |
| Flash.WriteSizeCovers | EspMon/EspLink/EspLink.Flash.cs:21-29 | without wrap-around, the erase size erase_blocks * blockSize covers the image and exceeds it by less than one block |
| Flash.BeginTimeout | EspMon/EspLink/EspLink.Flash.cs:30-39 | as written: the DEFL_BEGIN command gets 30 for any non-negative timeout and keeps a negative one; the computed erase time is discarded |
| Flash.EraseTimeout | EspMon/EspLink/EspLink.Flash.cs:30-37 | corrected: a non-negative timeout becomes the larger of itself and the erase time of 30 per 10^6 bytes of write size in milliseconds; a negative one is kept |
| Flash.BeginTimeoutCutsShort | EspMon/EspLink/EspLink.Flash.cs:30-39 | whenever the caller's timeout is above 30 or the erase covers 2000 bytes or more, the timeout as written is shorter than the erase time; a 4 MB erase with the default 5000 gets 30 instead of 125829 |
| Flash.BeginPayload | EspMon/EspLink/EspLink.Flash.cs:42-50 | the DEFL_BEGIN payload is 16 bytes holding, little-endian, the erase size, the block count, the block size and the offset |
| Flash.DeflBeginOn | EspMon/EspLink/EspLink.Flash.cs:12-58 | FlashDeflBeginAsync fails with CheckReady's error and sends nothing when not ready; on success it returns the uint block count of the compressed size in blocks of the chosen size |
| Flash.DeflOpcodeBytes | EspMon/EspLink/EspLink.Flash.cs:52 | the DEFL_BEGIN, DEFL_DATA and DEFL_END opcodes survive the cast to a byte |
| Flash.DeflBeginSends | EspMon/EspLink/EspLink.Flash.cs:20-57 | a successful DEFL_BEGIN found the link ready, sent exactly one frame with the begin payload, and returned ceil(compsize / B) when the sum does not wrap |
| Flash.PackBegin | EspMon/EspLink/EspLink.Flash.cs:42-50 | the buffer built and packed in place is the begin payload |
| Flash.DeflBegin | EspMon/EspLink/EspLink.Flash.cs:12-58 | FlashDeflBeginAsync on the link ends with the result and wire state of the begin model |
| Flash.BeginCommand | EspMon/EspLink/EspLink.Flash.cs:42-57 | the command half of FlashDeflBeginAsync on the link ends as the command model says |
| Flash.TriesMade | EspMon/EspLink/EspLink.Flash.cs:84-102 | the retry loop makes at most the allowed number of tries |
| Flash.TryCount | EspMon/EspLink/EspLink.Flash.cs:81 | fewer than one attempt counts as one, and any other count is kept |
| Flash.DeflBlockOn | EspMon/EspLink/EspLink.Flash.cs:79-108 | FlashDeflBlockAsync fails with CheckReady's error and sends nothing when not ready |
| Flash.TryWithIsTry | EspMon/EspLink/EspLink.Flash.cs:86-96 | the try step used by the loop is one FLASH_DEFL_DATA command at every wire state |
| Flash.TryWithSends | EspMon/EspLink/EspLink.Flash.cs:88-93 | every try sends exactly the same DEFL_DATA frame, keeps the port open and ends open |
| Flash.Copies | EspMon/EspLink/EspLink.Flash.cs:84-102 | k copies of a frame are k entries, each that frame |
| Flash.RetriesSend | EspMon/EspLink/EspLink.Flash.cs:84-107 | the retry loop makes between one and n tries, each sending the same frame, and fails only after all n, leaving the port open |
| Flash.TryStep | EspMon/EspLink/EspLink.Flash.cs:86-96 | one try on the link ends as the try model says |
| Flash.PackData | EspMon/EspLink/EspLink.Flash.cs:88-90 | the DEFL_DATA buffer is {length, seq, 0, 0} little-endian followed by the data, the same payload as a memory block |
| Flash.RetriesStep | EspMon/EspLink/EspLink.Flash.cs:84-102 | one pass of the retry loop: a success ends it, a failure leaves one try fewer with its error kept as the one to rethrow |
| Flash.DeflBlock | EspMon/EspLink/EspLink.Flash.cs:79-108 | FlashDeflBlockAsync on the link ends with the result and wire state of the block model |
| Flash.Retry | EspMon/EspLink/EspLink.Flash.cs:81-107 | the retry loop on the link ends as the retry model with max(attempts, 1) tries says |
| Flash.DeflFinishOn | EspMon/EspLink/EspLink.Flash.cs:59-78 | FlashDeflFinishAsync fails with CheckReady's error when not ready, and sends nothing and succeeds for the ROM loader when not rebooting |
| Flash.DeflFinishSends | EspMon/EspLink/EspLink.Flash.cs:70-76 | a finish that sends sends exactly one DEFL_END frame with the word 1 when not rebooting and 0 when rebooting |
| Flash.DeflFinish | EspMon/EspLink/EspLink.Flash.cs:59-78 | FlashDeflFinishAsync on the link ends as the finish model says, and the link leaves the bootloader exactly when the DEFL_END was sent and acknowledged |
| Flash.DeflBlockSends | EspMon/EspLink/EspLink.Flash.cs:79-108 | on a ready link whose port is open or opens, FlashDeflBlockAsync sends its DEFL_DATA frame once per try, between one and max(attempts, 1) times, and fails only when every try did |
| Flash.Fill | EspMon/EspLink/EspLink.Flash.cs:154-157 | the padding is n bytes of 0xFF |
| Flash.FlashBlock | EspMon/EspLink/EspLink.Flash.cs:152-157 | each block sent has exactly the block size |
| Flash.FlashBlockIsSlice | EspMon/EspLink/EspLink.Flash.cs:149-160 | with n blocks covering the stream, block k is the k-th slice of the stream padded with 0xFF to n blocks |
| Flash.WriteWithIsWrite | EspMon/EspLink/EspLink.Flash.cs:158 | the write step used by the loop is FlashDeflBlockAsync on block k at every wire state |
| Flash.BlocksDone | EspMon/EspLink/EspLink.Flash.cs:149-160 | the number of blocks written before the first failure is at most the number left |
| Flash.BlocksDoneAll | EspMon/EspLink/EspLink.Flash.cs:149-160 | the block loop succeeds exactly when every block is written |
| Flash.Percents | EspMon/EspLink/EspLink.Flash.cs:159 | after k blocks there are k block reports |
| Flash.PercentsAt | EspMon/EspLink/EspLink.Flash.cs:159 | the report after block i is (i * 100) / n |
| Flash.PercentBelow | EspMon/EspLink/EspLink.Flash.cs:159 | a block report is below 100 |
| Flash.PercentsBelow | EspMon/EspLink/EspLink.Flash.cs:159 | every block report lies in 0 .. 99 |
| Flash.PercentsRise | EspMon/EspLink/EspLink.Flash.cs:159 | the block reports never decrease |
| Flash.PercentsProgress | EspMon/EspLink/EspLink.Flash.cs:146-174 | 0, then the block reports, then 100 is a rising sequence, and the block reports stay below 100 |
| Flash.ProgressRises | EspMon/EspLink/EspLink.Flash.cs:146-174 | the reports start at 0 once the checks pass, never go down, end in 100 exactly when the flash succeeds, and on success number one per block plus two |
| Flash.FlashOn | EspMon/EspLink/EspLink.Flash.cs:134-176 | FlashAsync fails with CheckReady's error and reports nothing when not ready; it succeeds only after writing every block it counted, leaves the bootloader only through a successful finalized stub run, and counts the blocks the zlib stream needs when the size does not wrap |
| Flash.FlashWriteSizeOr | EspMon/EspLink/EspLink.Flash.cs:137-140 | the block size FlashAsync uses is never 0 and is the chosen block size once a device is set |
| Flash.ConcludeOn | EspMon/EspLink/EspLink.Flash.cs:163-173 | for the ROM loader without finalize the end of FlashAsync does nothing |
| Flash.ConcludeWithOn | EspMon/EspLink/EspLink.Flash.cs:163-173 | the end step used by the loop is the end model at every wire state |
| Flash.FlashAfter | EspMon/EspLink/EspLink.Flash.cs:147-174 | from the DEFL_BEGIN step on, a success means DEFL_BEGIN succeeded and every block it counted was written, and leaving the bootloader needs a finalized stub run |
| Flash.FlashFrom | EspMon/EspLink/EspLink.Flash.cs:149-174 | after a DEFL_BEGIN counting n blocks, at most n are written, all n on success, and leaving the bootloader needs a finalized stub run |
| Flash.FillBlock | EspMon/EspLink/EspLink.Flash.cs:152-157 | reading into the reused buffer copies the next min(length, remaining) bytes of the stream and pads the rest of the buffer with 0xFF |
| Flash.WriteStep | EspMon/EspLink/EspLink.Flash.cs:158 | one block write on the link ends as the write model for block k says |
| Flash.WriteNext | EspMon/EspLink/EspLink.Flash.cs:152-158 | block k read from the stream position k * b into the buffer is the model's block k, is written as the write model says, and moves the position on by one block |
| Flash.BlocksStep | EspMon/EspLink/EspLink.Flash.cs:149-160 | one more block of the loop: a failure ends it with no block counted, a success counts one and goes on from the new wire |
| Flash.WriteImage | EspMon/EspLink/EspLink.Flash.cs:148-160 | the block loop on the link ends as the block model says, and its reports are (i * 100) / n for each block written before the first failure |
| Flash.FlashAsync | EspMon/EspLink/EspLink.Flash.cs:134-176 | FlashAsync on the link ends with the result, wire state, reports and bootloader flag of the flash model |
| Flash.FlashReady | EspMon/EspLink/EspLink.Flash.cs:137-176 | past CheckReady, FlashAsync on the link ends as the flash model says |
| Flash.FlashCompressed | EspMon/EspLink/EspLink.Flash.cs:144-176 | once the stream is compressed, DEFL_BEGIN with the uint lengths, the blocks and the end run as the compressed model says, after the report of 0 |
| Flash.FlashBlocks | EspMon/EspLink/EspLink.Flash.cs:147-176 | from the DEFL_BEGIN reply on, the blocks, the stub's magic read, the optional finish and the final report run as the after-begin model says |
| Flash.WriteAndConclude | EspMon/EspLink/EspLink.Flash.cs:148-174 | the n announced blocks, the end and the report of 100 run as the model from the begin reply says |
| Flash.ReportedFrom | EspMon/EspLink/EspLink.Flash.cs:149-174 | the outcome, reports and bootloader flag that the blocks and the end leave are the ones the model from the begin reply states |
| Flash.Conclude | EspMon/EspLink/EspLink.Flash.cs:163-173 | the end of FlashAsync on the link runs as the end model says, and the link leaves the bootloader only when finalize sent a DEFL_END that was acknowledged |
| Flash.ReadMagic | EspMon/EspLink/EspLink.Flash.cs:163-168 | the stub gets one READ_REG of the magic register, its value dropped; the ROM loader gets nothing |
| Flash.FlashOnReported | EspMon/EspLink/EspLink.Flash.cs:137-176 | past the checks, FlashAsync is DEFL_BEGIN for the zlib stream in blocks of the chosen size followed by the rest of the flash |
| Zlib.AdlerOf | EspMon/EspLink/EspLink.Flash.cs:199-206 | both running sums of the byte loop stay below 65521 |
| Zlib.AdlerClosedForm | EspMon/EspLink/EspLink.Flash.cs:199-206 | reducing at every step gives the Adler-32 of section 8.2 of RFC 1950: a is 1 plus the byte sum and b the sum of the running a values, each modulo 65521 |
| Zlib.WordHalves | EspMon/EspLink/EspLink.Flash.cs:210 | the checksum word, b shifted left 16 bits OR a, holds b in its high half and a in its low half |
| Zlib.BigEndian | EspMon/EspLink/EspLink.Flash.cs:212-216 | the checksum is written as four bytes |
| Zlib.BigEndianReads | EspMon/EspLink/EspLink.Flash.cs:212-216 | the four bytes read back most significant first give the word |
| Zlib.Adler32Bytes | EspMon/EspLink/EspLink.Flash.cs:193-219 | the trailer is four bytes |
| Zlib.Adler32OfEmpty | EspMon/EspLink/EspLink.Flash.cs:199-216 | the checksum of an empty input is 00 00 00 01 |
| Zlib.Adler32Checksum | EspMon/EspLink/EspLink.Flash.cs:193-219 | Adler32Checksum returns the big-endian Adler-32 of the whole input |
| Zlib.AdlerSums | EspMon/EspLink/EspLink.Flash.cs:199-206 | the byte loop ends with the sums of the Adler-32 definition |
| Zlib.ZlibStream | EspMon/EspLink/EspLink.Flash.cs:177-192 | the zlib stream is six bytes longer than the DEFLATE data |
| Zlib.ZlibUnwraps | EspMon/EspLink/EspLink.Flash.cs:177-192 | the stream splits back into the header 78 9C, exactly the DEFLATE bytes, and a trailer that reads as the Adler-32 of the uncompressed input, as section 2.2 of RFC 1950 lays out |
| Zlib.ZlibHeaderValid | EspMon/EspLink/EspLink.Flash.cs:180-181 | the header 78 9C is a valid RFC 1950 header: method 8, window 7, check bits making it a multiple of 31, no preset dictionary |
| Zlib.CompressToZlib | EspMon/EspLink/EspLink.Flash.cs:177-192 | CompressToZlibStreamAsync writes exactly the zlib stream of the input to an empty stream |
| Display.Position | include/serial.hpp:14-21 | every field of a line has a place in the declared order |
| Display.LineLayout | include/serial.hpp:11-30 | the declared fields fill a 36-byte line at offsets 0, 12, 16, 20, 24, 26, 30 and 34, and index, flags and two lines make the 74-byte response_screen_t |
| Display.FieldOf | include/serial.hpp:14-21 | each field cut from a line has its declared size |
| Display.CString | include/serial.hpp:14 | C reads a char slot as the prefix before the first NUL: it holds no NUL and is followed by one when shorter than the slot |
| Display.ColorBytes | EspMon/Screen.cs:39-45 | a colour is four bytes and the firmware's reading of them gives the colour back |
| Display.ColorBytesOf | EspMon/Screen.cs:39-45 | writing the colour the firmware reads from four bytes gives those bytes back, so the two are inverse |
| Display.Slot | EspMon/Screen.cs:154-157 | a text slot keeps its size after the copy |
| Display.ValueImage | EspMon/Screen.cs:160-172 | one value's image is 10 bytes |
| Display.LineImage | EspMon/Screen.cs:154-185 | one line's image is 36 bytes |
| Display.ScreenImage | EspMon/Screen.cs:147-218 | the screen image is 74 bytes |
| Display.ToUint16 | EspMon/Screen.cs:79-83 | NaN is sent as 0 |
| Display.DataImage | EspMon/Screen.cs:84-122 | the data image is 8 bytes |
| Display.ColorToBytes | EspMon/Screen.cs:39-45 | ColorToBytes writes R, G, B, A at startIndex and nothing else |
| Display.CopyText | EspMon/Screen.cs:154-156 | the text copy writes min(length, limit) bytes of the text at index and leaves every other byte of the buffer, the slot's tail included, as it was |
| Display.PutValue | EspMon/Screen.cs:160-172 | one value writes its colour, suffix slot and little-endian max at index and nothing else |
| Display.PutLine | EspMon/Screen.cs:154-185 | one line writes its label slot, label colour and both values at index and nothing else |
| Display.GradientFlags | EspMon/Screen.cs:148-152 | the flags byte is computed as the flag model says |
| Display.ToScreenPacket | EspMon/Screen.cs:123-219 | ToScreenPacket writes the 74-byte screen image at destinationIndex; every byte outside those 74, and the unused tail of each text slot, is left as it was |
| Display.ToDataPacket | EspMon/Screen.cs:84-122 | ToDataPacket writes the 8-byte data image at destinationIndex and changes nothing else |
| Display.LineRoundTrip | include/serial.hpp:14-21 | every field of a written line reads back, through the declared layout, as the entry's label, colours, suffixes and maxima |
| Display.LineFirstFields | include/serial.hpp:14-17 | in a written line, the label slot holds the label cut to 11 bytes, then come the label colour, the first value's colour and its suffix cut to 3 bytes |
| Display.LineLastFields | include/serial.hpp:18-21 | in a written line, the first max is little-endian, then come the second value's colour, its suffix cut to 3 bytes and its little-endian max |
| Display.ScreenRoundTrip | include/serial.hpp:11-30 | the firmware reads back the low byte of screenIndex, the flags and both written lines |
| Display.FlagBits | EspMon/Screen.cs:148-152 | flag bit k is set exactly when value k is a gradient, and the high four bits are clear |
| Display.SlotFields | EspMon/Screen.cs:155-157 | a slot starts with the text cut to its limit, keeps its other bytes, and its last byte is never written |
| Display.CStringOf | include/serial.hpp:14 | a text without NUL followed by a NUL reads as that text |
| Display.SlotReadsAsText | EspMon/Screen.cs:154-157 | in a zero-filled buffer a slot reads back as its text cut to the limit, since the slot's last byte stays NUL |
| Display.DataRoundTrip | include/serial.hpp:4-9 | the firmware reads back the four readings, top value 1 first, each rounded to 16 bits |
| Display.UnmatchedIsZero | EspMon/Screen.cs:90-93 | a value whose match string is null, empty or not in the cache is sent as 0 |
| Display.HexDigit | EspMon/Screen.cs:51 | a hexadecimal digit in either case has a value below 16 |
| Display.ParseColorTrailingNul | EspMon/Screen.cs:51-53 | a pair made of one hex digit and a trailing NUL parses as that digit, as byte.Parse with NumberStyles.HexNumber does: "#A" NUL "B0C0" is the opaque colour 0A B0 C0 |
| Display.ParseColor | EspMon/Screen.cs:46-60 | the hexadecimal branch is taken exactly for a text starting with '#'; six digits give an opaque colour; a text shorter than 7 or exactly 8 characters throws |
| Display.ParseIgnoresTail | EspMon/Screen.cs:55-58 | characters after the alpha pair are ignored |
| Display.HexChar | EspMon/Screen.cs:51 | the digit written for a nibble parses back to it |
| Display.HexByte | EspMon/Screen.cs:51 | the two digits written for a byte parse back to it |
| Display.FormatColor | EspMon/Screen.cs:46-60 | the #RRGGBBAA notation of a colour is 9 characters starting with '#' |
| Display.ParsePairs | EspMon/Screen.cs:49-59 | '#' followed by four hex pairs parses to the colour of those pairs, and the first seven characters to the same colour made opaque |
| Display.ParseFormatted | EspMon/Screen.cs:46-60 | #RRGGBBAA parses back to the colour, and #RRGGBB to the colour made opaque |

## Left out

- DEFLATE compression is not modelled: the compressed bytes of an image are an input to `Flash.FlashAsync`, and only the zlib wrapper around them (header, Adler-32 trailer) is modelled.
- The stub images embedded as assembly resources are an input catalog to `Stub.GetStub`; reading resource streams is not modelled.
- Stub.RunStub: the code skips a stub whose Text or Data segment is null, but GetStub always fills both, so null segments are not modelled.
- Stub.WriteStubEntry: its IProgress reports (0, the per-block percentages, 100) are not modelled; only FlashAsync's reports are.
- Connect.Sync, Connect.ConnectAttempt and Connect.Connect: their IProgress reports are not modelled.
- GetComPorts' WMI query is not modelled: the list of ports (name, id, VID, PID, description) is an input to `Ports.FindComPort`, `Ports.IsUsbSerialJtag` and `Connect.BuildConnectStrategy`. The platform check in BuildConnectStrategy is a boolean input.
- Connect.ConnectAttempt: the boot banner read after a reset is not matched against the bootloader regular expression. Whether it matched, and whether the match counts as download mode, are boolean inputs. In the code `match.Groups.Count > 2` holds for every match of that pattern, and the boot-mode messages are dead anyway (see Findings).
- The reflection over EspDevice subclasses that CreateDevice performs is replaced by an explicit registry of the ESP32 and ESP32-S3 descriptors.
- EspDevice's `Parent` is a weak reference to the link that throws InvalidOperationException once the link has been collected. Garbage collection is not modelled: device operations take the link as an argument and always reach it.
- Screen.Read (JSON parsing) is not modelled, nor ParseColor's named-colour branch, which looks colour names up by reflection over System.Drawing.Color. `Display.ParseColor` models only the hexadecimal branch and reports a name as left to that lookup.
- Display.ToUint16: readings are modelled as NaN or as an already rounded 16-bit value. Math.Round on a float and the float-to-ushort cast are not modelled.
- Flash.EraseTimeout: the erase time is computed in whole numbers (write size times 30 times 1000 divided by 10^6). The code computes it in float arithmetic and truncates.
- Async execution, CancellationToken and the blocking `.Wait()` wrappers are not modelled: each operation runs to completion in order.
- The big-endian host branches (`!BitConverter.IsLittleEndian`) are not modelled: the host is little-endian.
- Thread.Sleep calls are not timed: each is a Slept event in the port log, or part of the elapsed time a read counts against its timeout.
- Bytes arriving from the chip are a queue fixed when an operation starts. The `_port_DataReceived` event handler and any concurrency with it are not modelled.
- Transport.ReadFrame: with a timeout of -1 and an empty queue the code polls forever; the model returns Err(Starved) instead of not returning.
- Commands.Replies: with timeout -1 an empty queue ends it with Err(Starved) where the code would wait forever.
- Connect.SyncTries: a Starved sync is retried like any other failure, where the code would never have returned from it.
- Connect.AttemptsOn: a Starved attempt is retried like any other failure, so `Connect.Connect` with its default timeout -1 can end in Err(Starved) where the code never returns.
- Flash.RetriesOn: a Starved block write is retried like any other failure, where the code would never have returned from it.
- Reset.Reset: a caller-supplied ResetStrategy delegate is modelled only by the answers it gives on the three runs. Whatever it does to the DTR and RTS lines is not modelled.
- Display.ToScreenPacket: requires the 74 bytes from destinationIndex to fit in the buffer, where the code throws IndexOutOfRangeException. Null Label or Suffix strings, which throw in the code, cannot be expressed, and text is taken as already UTF-8 encoded.
- Display.ToDataPacket: requires the 8 bytes from destinationIndex to fit in the buffer, where the code throws.
- Packet.PackOpPacket: requires the packet to fit in the buffer from destinationIndex, where the code throws.
- Bytes.PadTo: requires an alignment above 0. With 0 the code throws DivideByZeroException; negative alignments are not modelled.
- Ports.Upper: the fold maps only 'a'..'z', whereas StringComparison.OrdinalIgnoreCase also folds non-ASCII letters (é against É, say); Ports.FindComPort, Ports.IsUsbSerialJtag and Ports.ComPortNum therefore compare non-ASCII names case-sensitively, because the Unicode case table is not part of this model.
- Ports.ParseInt: trailing NUL characters, which int.TryParse also accepts, are not modelled, and culture-specific parsing is limited to the invariant culture the code uses.
- Session.Link.Finalize: when the garbage collector runs the finalizer is not modelled; the method models only what the finalizer does.

## Findings

| source | as written | input that shows it | evidently intended | confidence | as-written member | corrected member |
|---|---|---|---|---|---|---|
| EspMon/EspLink/EspLink.Frame.cs:35 | the encoder reads `data[i + index]` while its loop already runs i from index, so a non-zero index skips bytes | data [0x00, 0xC0, 0x41], index 1, length 1: the frame carries 0x41 instead of the escaped 0xC0 | read `data[i]`, framing data[index..index + length] | high, not executed | Framing.EncodeAtOneMisreads | Framing.EncodeAtZero |
| EspMon/EspLink/EspLink.Frame.cs:104-145 | the decoder's loop is bounded by the length of its output, so each escape pair leaves one raw byte unread at the end | payload [0xC0] is framed as C0 DB DC C0 and read back as [0xDB] | decode the whole body, undoing every escape pair | high, not executed | Framing.FrameRoundTripFailsOnEnd | Framing.FrameRoundTripIntended |
| EspMon/EspLink/EspLink.Connect.cs:219-224 | the strategy index only moves after a successful attempt, which then breaks out of the loop | a non-JTAG port on Windows whose first attempts fail: every attempt resets with the 50 ms entry, the 550 ms entry is never tried | move to the next entry after each failed attempt, wrapping at the end | high, not executed | Connect.ConnectLoop | Connect.RotationTriesEveryEntry |
| EspMon/EspLink/EspLink.Connect.cs:170-178 | after five failed syncs the last exception is always set and rethrown, so the boot-mode messages can never be raised | a reset whose banner shows boot:0x13 and a chip that never answers SYNC: the last sync's exception comes out, not "Wrong boot mode detected" | report the boot-mode message when the banner was seen | medium, not executed | Connect.SyncTriesIgnoreBanner | Connect.BannerReportedAsIntended |
| EspMon/EspLink/EspLink.Flash.cs:30-39 | the erase time `tm` is computed and discarded, and any non-negative timeout becomes 30 | a 4 MB image with timeout 5000: DEFL_BEGIN gets 30 ms instead of 125829 ms | give DEFL_BEGIN the larger of the timeout and the erase time | high, not executed | Flash.BeginTimeoutCutsShort | Flash.EraseTimeout |
| EspMon/EspLink/EspLink.Reset.cs:121 | when the port does not open Reset returns normally, having reset nothing | a port name with no device behind it: Reset returns without an exception | throw the IOException that Reset documents for a device it cannot reach | medium, not executed | Reset.ResetOutcome | Reset.ResetOutcomeIntended |
