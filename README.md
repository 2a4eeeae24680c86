# ledSpeak packet codec in Dafny

ledSpeak sends frames of LED pixel colours over UDP. The core modelled here is
the packet codec in `ledSpeak.py`. It has three parts.

- **Pixel codecs.** There is one codec per LED chipset, and each turns a list
  of `(r, g, b)` tuples into bytes and back.
  - WS2812 writes three bytes per pixel, in wire order g, r, b.
  - P9813 writes four bytes per pixel: a header byte computed from the top
    two bits of each channel, then b, g, r.
- **Packet framing.** `ledSpeakPacket.packRawFrame` wraps the pixel bytes
  into a packet. The fields, all big-endian, are:
  - a 32-bit payload length;
  - a 32-bit CRC-32 of the payload;
  - a 16-bit sequence number;
  - a flags byte;
  - the message type `FB_RAW` (0x10);
  - a 32-bit frame length;
  - the pixel bytes.

  `packRawFrame` then advances the sender's sequence counter.
  `ledSpeakPacket.unpack` reads the fields back, decodes the pixel bytes and
  recomputes the CRC, storing everything in fields for the caller to compare.
- **Driver selection.** `ledSpeakNode.__init__` picks a codec by the name
  `"p9813"` or `"ws2812"` and exits on any other name.

The modules are:

- `Bytes` (`bytes.dfy`):
  - bytes and an `Option` type;
  - the big-endian unsigned fields that Python's `struct` writes with `>H` and
    `>I`, and that it reads with `unpack_from`.
- `Bits` (`bits.dfy`): the bitwise operators `^`, `&`, `|` and `>>` on
  naturals, defined one bit at a time, with the facts the header and the
  checksum need.
- `Checksum` (`crc32.dfy`): `binascii.crc32`. This is the zlib CRC-32:
  - reflected polynomial 0xEDB88320;
  - register preset to 0xFFFFFFFF;
  - final complement;
  - computed one bit at a time.
- `Pixels` (`pixels.dfy`):
  - both codecs as pure functions;
  - the P9813 header;
  - dispatch by driver;
  - driver selection by name.
- `LedSpeak` (`packet.dfy`):
  - the `MSG_TYPE` constants;
  - the packet layout as a pure function `RawFrame`;
  - a `Packet` class with the counter, the flags and the fields `unpack`
    fills in;
  - `PackRawFrame` and `Unpack` as methods on `Packet`;
  - driver selection at node creation, the `simple` command's send loop, and
    a send followed by a receive.

Where `struct.pack` or `struct.unpack_from` raises, the model returns `None`
or `false`. In those cases the state is exactly what the source leaves
behind. `packRawFrame` raises before `self.seq += 1`, so nothing changes.
`unpack` keeps the fields it already assigned before the raise.

Two consequences of the code are worth stating on their own.

- **Sequence numbers never wrap.** `self.seq` is never reduced mod 2^16
  (ledSpeak.py:85-87). Once it reaches 0x10000, `struct.pack('>H', ...)`
  raises on every later `packRawFrame`.
  - For pixels that pack (`Packable`), `LedSpeak.Packet.PackRawFrame` fails
    exactly when the old counter exceeds 0xFFFF.
  - `LedSpeak.SendRawFrames` states that a packet object starting at
    sequence 0 sends at most 0x10000 packets.
- **Short packets raise.** `unpack_from` raises on a buffer shorter than 16
  bytes (ledSpeak.py:92-94). `LedSpeak.Packet.Unpack` models that as
  `ok == false`, with the partial field updates the source makes before the
  raise.

## Model

| member | source | states |
|---|---|---|
| Bytes.BeValueOfBeBytes | ledSpeak.py:84-94 | reading back a big-endian field written with `>H` or `>I` gives the value written |
| Bytes.BeBytesOfBeValue | ledSpeak.py:84-94 | writing back the value read from a big-endian field gives the same bytes |
| Bytes.BeValueInjective | ledSpeak.py:92-94 | two fields of the same width hold the same bytes exactly when they read as the same value |
| Checksum.Crc32 | ledSpeak.py:79-80 | `calcCrc` returns a value below 2^32 (the `>I` word can hold it) |
| Checksum.Crc32DetectsOneByteChange | ledSpeak.py:79-80 | two inputs that differ in exactly one byte have different CRC-32 values |
| Checksum.Crc32OfEmpty | ledSpeak.py:79-80 | the CRC-32 of no bytes is 0 |
| Pixels.Ws2812Bytes | ledSpeak.py:105-107 | WS2812 packing gives 3 bytes per pixel, with pixel i at bytes 3i, 3i+1, 3i+2 as g, r, b |
| Pixels.Ws2812Pixels | ledSpeak.py:109-110 | WS2812 unpacking gives one pixel per complete 3-byte group and drops a trailing partial group; pixel i is (bytes[3i+1], bytes[3i], bytes[3i+2]) |
| Pixels.Ws2812RoundTrip | ledSpeak.py:105-110 | unpacking the packed byte-valued pixels gives back the same pixels |
| Pixels.Ws2812PackUnpack | ledSpeak.py:105-110 | packing the unpacked bytes gives back the bytes up to the last complete 3-byte group |
| Pixels.BlueField | ledSpeak.py:114 | `0x30 & (b >> 2)` is the top two bits of b moved to bits 5..4 |
| Pixels.GreenField | ledSpeak.py:115 | `0x0C & (g >> 4)` is the top two bits of g moved to bits 3..2 |
| Pixels.RedField | ledSpeak.py:116 | `0x03 & (r >> 6)` is the top two bits of r |
| Pixels.Header | ledSpeak.py:113-117 | `pixelHeader` always lies in 0xC0..0xFF (its two top bits stay set), so it fits the `B` field it is packed into |
| Pixels.HeaderFormula | ledSpeak.py:113-117 | the P9813 header is 0xFF minus the top two bits of b, g, r taken as base-4 digits |
| Pixels.HeaderDependsOnTopBits | ledSpeak.py:113-117 | two pixels have the same header exactly when the top two bits of each channel agree |
| Pixels.P9813Bytes | ledSpeak.py:119-122 | P9813 packing gives 4 bytes per pixel, with pixel i at bytes 4i..4i+3 as header, b, g, r |
| Pixels.P9813Groups | ledSpeak.py:124-125 | P9813 unpacking gives one 4-tuple per complete 4-byte group; group (x0, x1, x2, x3) becomes (x0, x2, x1, x3) |
| Pixels.P9813UnpackOfPack | ledSpeak.py:119-125 | unpacking packed pixel i gives (header, g, b, r), which is not the original triple |
| Pixels.P9813Recover | ledSpeak.py:119-125 | reading that tuple in the order (b, r, g) recovers the pixel, and its first component is that pixel's header |
| Pixels.P9813NotInverse | ledSpeak.py:119-125 | for example, (1, 2, 3) packs and unpacks to (0xFF, 2, 3, 1) |
| Pixels.PackPixels | ledSpeak.py:105-122 | packing succeeds exactly when every channel is in 0..255; the output has 3 or 4 bytes per pixel, depending on the driver |
| Pixels.UnpackPixels | ledSpeak.py:109-125 | a WS2812 packet object returns 3-tuples, `len // 3` of them; a P9813 packet object returns 4-tuples, `len // 4` of them |
| Pixels.Ws2812Example | ledSpeak.py:105-107 | WS2812 packs (1, 2, 3) as the bytes 2, 1, 3 |
| Pixels.P9813Example | ledSpeak.py:113-122 | P9813 packs (255, 0, 0) as 0xFC, 0, 0, 0xFF, so `pixelHeader(255, 0, 0)` is 0xFC |
| Pixels.SelectDriver | ledSpeak.py:136-142 | the dispatch picks a driver only for that driver's own name, and picks none exactly when the name is neither "p9813" nor "ws2812" |
| Pixels.SelectDriverInvertsName | ledSpeak.py:136-142 | a name selects a given driver exactly when it is that driver's name (the name the `--drv` option takes) |
| LedSpeak.RawFrame | ledSpeak.py:82-86 | a raw frame of d is 16 + len(d) bytes long |
| LedSpeak.RawFrameLayout | ledSpeak.py:82-86 | bytes 0..3 hold len(d)+8; bytes 4..7 hold the CRC-32 of bytes 8 onward; bytes 8..9 hold the sequence number; byte 10 is the flags; byte 11 is FB_RAW; bytes 12..15 hold len(d); bytes 16 onward are d |
| LedSpeak.RawFrameCarriesPixels | ledSpeak.py:82-96 | a receiver with the same driver recovers the sent pixels (WS2812), or the header and channels of each sent pixel (P9813) |
| LedSpeak.TamperingExposed | ledSpeak.py:84-96 | changing any one byte of a raw frame in transit either breaks received length = length word + 8 (a byte in the length word) or breaks the CRC check (any other byte) |
| LedSpeak.SetFlagsAsWritten | ledSpeak.py:76-77 | `setFlags`, declared without `self`, raises on every call through a packet object and never changes the flags |
| LedSpeak.WithMore | ledSpeak.py:76-77 | the intended `setFlags` sets the low bit when `more` and keeps the other seven bits |
| LedSpeak.SetFlagsDiscrepancy | ledSpeak.py:76-77 | for every starting value of the flags, the as-written `setFlags` does not produce the flags that the intended one produces |
| LedSpeak.MoreFlagIsSent | ledSpeak.py:76-85 | a MORE bit set by the intended `setFlags` arrives in byte 10 of the next raw frame |
| LedSpeak.Packet.constructor | ledSpeak.py:59-61 | a new packet starts with flags 0 and sequence number 0 |
| LedSpeak.Packet.SetFlags | ledSpeak.py:76-77 | the intended `setFlags` on the packet's flags, with nothing else changed |
| LedSpeak.Packet.PackRawFrame | ledSpeak.py:82-88 | succeeds exactly when the pixels pack, the lengths fit `>I` and the counter fits `>H`; on success it returns RawFrame(old counter, flags, packed pixels) and advances the counter by exactly 1; on failure nothing changes; it never changes the flags |
| LedSpeak.Packet.Unpack | ledSpeak.py:90-96 | records the received length; reads the length and CRC words from 8 bytes on, sequence number, flags and type from 12 bytes on, and from 16 bytes on the frame length, the decoded pixels of bytes 16 onward and the CRC-32 of bytes 8 onward; a shorter packet leaves the later fields as they were and fails; the counter is never touched |
| LedSpeak.NewNodePacket | ledSpeak.py:136-142 | a node gets a fresh packet object for its driver name exactly when the name selects a driver |
| LedSpeak.SendRawFrames | ledSpeak.py:192-195 | `count` sends produce the frames numbered from the initial counter; sending stops at the first failure, which comes after 0x10000 − counter frames when the pixels pack, or at once when they do not |
| LedSpeak.Exchange | ledSpeak.py:150-160 | a sent frame unpacked by a node with the same driver passes both checks (received length = length word + 8 and local CRC = received CRC); the node sees the sender's sequence number, the flags as sent, FB_RAW, the frame length and the driver's unpacking of the packed pixels (for WS2812, the sent pixels); the sender's counter advances by exactly 1 and its flags stay; the receiver's counter is untouched; when the frame cannot be built neither node changes |

## Left out

- The UDP socket and everything around it are not modelled: socket creation,
  `listen`, `stop`, `recvPacket`, and in `sendRawFrame` the `sendto` and the
  verbose hex dump of the packet. They are I/O through a foreign library.
  `LedSpeak.Exchange` hands the bytes from sender to receiver directly.
- `main` is not modelled: argument parsing, the SIGINT handler and the
  unimplemented `rainbow` command are command-line plumbing. Only the
  `simple` command's send loop is modelled (`LedSpeak.SendRawFrames`).
- `dump` is not modelled because it is console output only. Its CRC labels
  are swapped: it prints the received CRC as "calculated" and the local one
  as "indicated".
- Message types other than FB_RAW are not modelled. They exist only as
  constants, and no code builds or interprets them. `unpack` reads every
  packet with the raw-frame layout, and so does the model.
- Checksum.Crc32 is defined bit by bit as the zlib CRC-32. Only its
  empty-input value is proved. The standard check value, CRC-32 of
  "123456789" = 0xCBF43926, is not proved. The properties used elsewhere
  (bound, single-byte detection) hold of this definition.
- `payloadFbLen` is the 1-tuple that `unpack_from` returns; the model
  stores the integer it contains.
- Pixels are typed triples of integers. A tuple of another arity or with
  non-integer channels makes the source raise, and is not modelled. A
  channel outside 0..255 is modelled, as a failure.
- Before its first `unpack`, a source packet object has no received
  fields at all. The model starts them at 0 and an empty frame.
- Exceptions are modelled as a `None` or `false` result, not as unwinding
  through the caller. `sendRawFrame` and `decodePacket` do no work after the
  call that raises, so no other state differs.
- The fields `host`, `port`, `verbose` and `UDP_BUF_SIZE` of `ledSpeakNode`
  are not modelled. The 2048-byte receive buffer truncates incoming
  datagrams in the socket layer.
- LedSpeak.Exchange states equality with the sent pixels only for WS2812.
  For P9813 the received tuples are not the sent triples; it states the
  frame as the P9813 unpacking of the packed bytes, and
  LedSpeak.RawFrameCarriesPixels states what those tuples are.

## Findings

| source | as written | input that shows it | evidently intended | confidence | as-written member | corrected member |
|---|---|---|---|---|---|---|
| ledSpeak.py:76-77 | `setFlags` is declared without `self`. `packet.setFlags(True)` passes two positional arguments to a one-parameter function and raises TypeError. `packet.setFlags()` binds the packet to `more` and raises NameError on `self`. The flags never change. | `packet.setFlags(True)` on any packet object | the low bit (0x01) of `self.flags` set when `more` is true, and the flags unchanged otherwise | not executed; follows from Python's method binding | LedSpeak.SetFlagsAsWritten | LedSpeak.WithMore |
