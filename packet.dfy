/** The ledSpeak packet (`ledSpeakPacket` in ledSpeak.py): a raw frame of
    pixel data framed with a length word, a CRC-32 word, a 16-bit sequence
    number, a flags byte and a message type, all big-endian.

      offset  size  field
           0     4  payload length (everything from offset 8 on)
           4     4  CRC-32 of the payload
           8     2  sequence number
          10     1  flags
          11     1  message type (FB_RAW for a raw frame)
          12     4  frame length (number of pixel bytes)
          16     n  pixel bytes, as the driver packs them
*/
module LedSpeak {
  import opened Bytes
  import opened Bits
  import opened Checksum
  import opened Pixels

  // Message types (`MSG_TYPE`). Only FB_RAW is ever built or interpreted.
  const PANIC: byte := 0x00
  const CONFIG_SELECT: byte := 0x01
  const CONFIG_LENGTH: byte := 0x02
  const CONFIG_SCALING: byte := 0x03
  const CONFIG_STEP_SIZE: byte := 0x04
  const CONFIG_STEP_MOD: byte := 0x05
  const CONFIG_STRING_FX: byte := 0x06
  const CONFIG_PIXEL_FX: byte := 0x07
  const CONFIG_STRING_OPTION: byte := 0x08
  const FB_RAW: byte := 0x10
  const FB_PACKED: byte := 0x11
  const FB_DELTA: byte := 0x12
  const FB_TIMED: byte := 0x13

  /** Bytes before the pixel data. */
  const FixedLen: nat := 16

  /** The flag bit meaning "more packets of this message follow". */
  const MORE: nat := 0x01

  /** `struct` accepts the sequence number as `>H` and the payload length
      (8 bytes of fields plus the pixel data) as `>I`. */
  predicate FrameFits(seqNo: int, d: seq<byte>) {
    0 <= seqNo <= 0xFFFF && |d| + 8 <= 0xFFFF_FFFF
  }

  /** The pixels pack with the driver and the packet's length word can hold
      the payload: every precondition of a raw frame except the sequence
      number. */
  predicate Packable(drv: Driver, pixels: seq<Rgb>) {
    PackPixels(drv, pixels).Some? && |PackPixels(drv, pixels).value| + 8 <= 0xFFFF_FFFF
  }

  /** The packet a raw frame of pixel bytes d becomes. */
  function RawFrame(seqNo: int, flags: byte, d: seq<byte>): (p: seq<byte>)
    requires FrameFits(seqNo, d)
    ensures |p| == FixedLen + |d|
  {
    Pow256Values();
    var payload := BeBytes(seqNo, 2) + [flags, FB_RAW] + BeBytes(|d|, 4) + d;
    BeBytes(|payload|, 4) + BeBytes(Crc32(payload), 4) + payload
  }

  /** Every field of a raw frame reads back, at its offset, as the value it
      was built from; the CRC word covers exactly the bytes from offset 8. */
  lemma RawFrameLayout(seqNo: int, flags: byte, d: seq<byte>)
    requires FrameFits(seqNo, d)
    ensures var p := RawFrame(seqNo, flags, d);
      && |p| == FixedLen + |d|
      && FieldAt(p, 0, 4) == |d| + 8
      && FieldAt(p, 4, 4) == Crc32(p[8..])
      && FieldAt(p, 8, 2) == seqNo
      && p[10] == flags
      && p[11] == FB_RAW
      && FieldAt(p, 12, 4) == |d|
      && p[16..] == d
  {
    Pow256Values();
    var sq := BeBytes(seqNo, 2);
    var fl := BeBytes(|d|, 4);
    var payload := sq + [flags, FB_RAW] + fl + d;
    var ln := BeBytes(|payload|, 4);
    var cr := BeBytes(Crc32(payload), 4);
    var p := ln + cr + payload;
    assert p == RawFrame(seqNo, flags, d);
    assert p[0..4] == ln;
    assert p[4..8] == cr;
    assert p[8..] == payload;
    assert p[8..10] == sq;
    assert p[12..16] == fl;
    assert p[16..] == d;
    BeValueOfBeBytes(|payload|, 4);
    BeValueOfBeBytes(Crc32(payload), 4);
    BeValueOfBeBytes(seqNo, 2);
    BeValueOfBeBytes(|d|, 4);
  }

  /** The pixels a receiver of the same driver recovers from a raw frame:
      a WS2812 frame gives the sent pixels back; a P9813 frame gives, per
      pixel, its header and its channels in the order (b, r, g). */
  lemma RawFrameCarriesPixels(drv: Driver, pixels: seq<Rgb>, seqNo: int, flags: byte)
    requires Packable(drv, pixels) && 0 <= seqNo <= 0xFFFF
    ensures var fb := UnpackPixels(drv, RawFrame(seqNo, flags, PackPixels(drv, pixels).value)[16..]);
      && (drv == WS2812 ==> fb == Ws2812Frame(pixels))
      && (drv == P9813 ==>
            && fb.P9813Frame?
            && |fb.groups| == |pixels|
            && forall i :: 0 <= i < |pixels| ==>
                 Rgb(fb.groups[i].b, fb.groups[i].r, fb.groups[i].g) == pixels[i] &&
                 fb.groups[i].h == Header(fb.groups[i].b, fb.groups[i].r, fb.groups[i].g))
  {
    var d := PackPixels(drv, pixels).value;
    RawFrameLayout(seqNo, flags, d);
    if drv == WS2812 {
      Ws2812RoundTrip(pixels);
    } else {
      forall i | 0 <= i < |pixels|
        ensures var t := P9813Groups(d)[i];
          Rgb(t.b, t.r, t.g) == pixels[i] && t.h == Header(t.b, t.r, t.g)
      {
        P9813Recover(pixels, i);
      }
    }
  }

  /** Every single-byte change to a raw frame in transit is visible to the
      receiver's checks: a change in the length word makes the received
      length disagree with it (the CRC does not cover that word), and a
      change anywhere else makes the CRC word disagree with the CRC
      computed over the received bytes. */
  lemma TamperingExposed(seqNo: int, flags: byte, d: seq<byte>, q: seq<byte>, k: nat)
    requires FrameFits(seqNo, d)
    requires |q| == |RawFrame(seqNo, flags, d)| && k < |q|
    requires q[k] != RawFrame(seqNo, flags, d)[k]
    requires forall i :: 0 <= i < |q| && i != k ==> q[i] == RawFrame(seqNo, flags, d)[i]
    ensures k < 4 ==> FieldAt(q, 0, 4) + 8 != |q| && FieldAt(q, 4, 4) == Crc32(q[8..])
    ensures k >= 4 ==> FieldAt(q, 0, 4) + 8 == |q| && FieldAt(q, 4, 4) != Crc32(q[8..])
  {
    var p := RawFrame(seqNo, flags, d);
    RawFrameLayout(seqNo, flags, d);
    if k < 4 {
      assert q[0..4][k] != p[0..4][k];
      BeValueInjective(q[0..4], p[0..4]);
      assert q[4..8] == p[4..8];
      assert q[8..] == p[8..];
    } else if k < 8 {
      assert q[0..4] == p[0..4];
      assert q[4..8][k - 4] != p[4..8][k - 4];
      BeValueInjective(q[4..8], p[4..8]);
      assert q[8..] == p[8..];
    } else {
      assert q[0..4] == p[0..4];
      assert q[4..8] == p[4..8];
      Crc32DetectsOneByteChange(q[8..], p[8..], k - 8);
    }
  }

  /** `setFlags` as the source declares it: without `self`. Called as
      `packet.setFlags(more)` it receives two positional arguments for one
      and raises TypeError; called as `packet.setFlags()` it binds the packet
      to `more` and raises NameError on `self`. No call changes the flags:
      the result is always None. */
  function SetFlagsAsWritten(flags: byte, more: bool): (r: Option<byte>)
    ensures r.None?
  {
    None
  }

  /** The flags `setFlags` is evidently meant to produce: `flags | 0x01`
      when more packets follow, and the flags unchanged otherwise. */
  function WithMore(flags: byte, more: bool): (r: byte)
    ensures r % 2 == (if more then MORE else flags % 2)
    ensures r / 2 == flags / 2
  {
    if more then
      OrOne(flags);
      Or(flags, MORE)
    else flags
  }

  /** The as-written `setFlags` never sets the MORE bit that the corrected
      one sets, whatever flags the packet starts from. */
  lemma SetFlagsDiscrepancy(flags: byte)
    ensures SetFlagsAsWritten(flags, true) != Some(WithMore(flags, true))
    ensures WithMore(flags, true) % 2 == MORE
  {
  }

  /** A MORE bit set before packing reaches the receiver in the flags byte. */
  lemma MoreFlagIsSent(seqNo: int, flags: byte, d: seq<byte>)
    requires FrameFits(seqNo, d)
    ensures RawFrame(seqNo, WithMore(flags, true), d)[10] % 2 == MORE
  {
    RawFrameLayout(seqNo, WithMore(flags, true), d);
  }

  /** One packet object: the sequence counter and flags of the sender, and
      the fields `unpack` fills in on the receiving side. */
  class Packet {
    const driver: Driver
    var flags: int
    var seqNo: int
    var rcvdLen: int
    var payloadLen: int
    var payloadCrc: int
    var payloadSeq: int
    var msgType: int
    var payloadFbLen: int
    var fb: Frame
    var localCrc: int

    /** The flags always fit their byte; the counter starts at 0 and stops
        one past the largest sequence number `>H` accepts. */
    predicate Valid()
      reads this
    {
      0 <= flags < 256 && 0 <= seqNo <= 0x1_0000
    }

    /** The packet for a driver, with flags and sequence number 0. The
        received fields, which the source creates in `unpack`, start at 0
        and an empty frame. */
    constructor(drv: Driver)
      ensures Valid()
      ensures driver == drv && flags == 0 && seqNo == 0
      ensures rcvdLen == 0 && payloadLen == 0 && payloadCrc == 0 && payloadSeq == 0
      ensures msgType == 0 && payloadFbLen == 0 && localCrc == 0
      ensures fb == UnpackPixels(drv, [])
    {
      driver := drv;
      flags := 0;
      seqNo := 0;
      rcvdLen, payloadLen, payloadCrc, payloadSeq := 0, 0, 0, 0;
      msgType, payloadFbLen, localCrc := 0, 0, 0;
      fb := UnpackPixels(drv, []);
    }

    /** `setFlags`, corrected (see SetFlagsAsWritten). */
    method SetFlags(more: bool)
      requires Valid()
      modifies this`flags
      ensures Valid()
      ensures flags == WithMore(old(flags), more)
    {
      if more {
        flags := WithMore(flags, true);
      }
    }

    /** `packRawFrame`: builds the packet and advances the sequence number.
        The source raises when a channel is not a byte or a length or the
        sequence number does not fit its field; then None is returned and
        nothing changes. */
    method PackRawFrame(pixels: seq<Rgb>) returns (r: Option<seq<byte>>)
      requires Valid()
      modifies this`seqNo
      ensures Valid()
      ensures r.Some? <==> Packable(driver, pixels) && old(seqNo) <= 0xFFFF
      ensures r.Some? ==> r.value == RawFrame(old(seqNo), flags, PackPixels(driver, pixels).value)
      ensures seqNo == if r.Some? then old(seqNo) + 1 else old(seqNo)
    {
      var pixelData := PackPixels(driver, pixels);
      if pixelData.None? {
        return None;
      }
      var d := pixelData.value;
      if |d| + 8 > 0xFFFF_FFFF || seqNo > 0xFFFF {
        return None;
      }
      Pow256Values();
      var rawFrameBuffer := BeBytes(|d|, 4) + d;
      var payload := BeBytes(seqNo, 2) + [flags, FB_RAW] + rawFrameBuffer;
      assert payload == BeBytes(seqNo, 2) + [flags, FB_RAW] + BeBytes(|d|, 4) + d;
      var packetData := BeBytes(|payload|, 4) + BeBytes(Crc32(payload), 4) + payload;
      assert packetData == RawFrame(seqNo, flags, d);
      seqNo := seqNo + 1;
      return Some(packetData);
    }

    /** `unpack`: reads the fields of a received packet. Each `unpack_from`
        raises when the buffer ends before its field, after the fields read
        so far have been stored; `ok` is false then. */
    method Unpack(p: seq<byte>) returns (ok: bool)
      requires Valid()
      modifies this`rcvdLen, this`payloadLen, this`payloadCrc, this`payloadSeq,
        this`flags, this`msgType, this`payloadFbLen, this`fb, this`localCrc
      ensures Valid()
      ensures ok <==> |p| >= FixedLen
      ensures rcvdLen == |p|
      ensures if |p| >= 8 then payloadLen == FieldAt(p, 0, 4) && payloadCrc == FieldAt(p, 4, 4)
              else payloadLen == old(payloadLen) && payloadCrc == old(payloadCrc)
      ensures if |p| >= 12 then payloadSeq == FieldAt(p, 8, 2) && flags == p[10] && msgType == p[11]
              else payloadSeq == old(payloadSeq) && flags == old(flags) && msgType == old(msgType)
      ensures if |p| >= 16 then
                payloadFbLen == FieldAt(p, 12, 4) && fb == UnpackPixels(driver, p[16..]) &&
                localCrc == Crc32(p[8..])
              else payloadFbLen == old(payloadFbLen) && fb == old(fb) && localCrc == old(localCrc)
    {
      rcvdLen := |p|;
      if |p| < 8 {
        return false;
      }
      payloadLen, payloadCrc := FieldAt(p, 0, 4), FieldAt(p, 4, 4);
      if |p| < 12 {
        return false;
      }
      payloadSeq, flags, msgType := FieldAt(p, 8, 2), p[10], p[11];
      if |p| < 16 {
        return false;
      }
      payloadFbLen := FieldAt(p, 12, 4);
      fb := UnpackPixels(driver, p[16..]);
      localCrc := Crc32(p[8..]);
      return true;
    }
  }

  /** `ledSpeakNode.__init__`'s choice of packet class; None is the
      source's exit on an unknown driver name. */
  method NewNodePacket(drv: string) returns (pkt: Option<Packet>)
    ensures pkt.Some? <==> SelectDriver(drv).Some?
    ensures pkt.Some? ==>
      && pkt.value.driver == SelectDriver(drv).value
      && fresh(pkt.value)
      && pkt.value.Valid() && pkt.value.seqNo == 0 && pkt.value.flags == 0
  {
    var d := SelectDriver(drv);
    if d.None? {
      return None;
    }
    var p := new Packet(d.value);
    return Some(p);
  }

  /** The `simple` command: `count` calls of `sendRawFrame` with the same
      pixels. It stops at the first call that raises; the packets sent
      before it are numbered from the initial sequence number on. Since the
      sequence number is never wrapped, no more than 0x10000 packets leave
      a fresh packet object. */
  method SendRawFrames(pkt: Packet, pixels: seq<Rgb>, count: nat) returns (sent: seq<seq<byte>>, ok: bool)
    requires pkt.Valid()
    modifies pkt`seqNo
    ensures pkt.Valid()
    ensures ok <==> count == 0 || (Packable(pkt.driver, pixels) && old(pkt.seqNo) + count <= 0x1_0000)
    ensures |sent| == if ok then count else if Packable(pkt.driver, pixels) then 0x1_0000 - old(pkt.seqNo) else 0
    ensures pkt.seqNo == old(pkt.seqNo) + |sent|
    ensures forall i :: 0 <= i < |sent| ==>
      Packable(pkt.driver, pixels) && old(pkt.seqNo) + i <= 0xFFFF &&
      sent[i] == RawFrame(old(pkt.seqNo) + i, pkt.flags, PackPixels(pkt.driver, pixels).value)
  {
    sent := [];
    var i := 0;
    while i < count
      invariant 0 <= i <= count && |sent| == i
      invariant pkt.Valid() && pkt.seqNo == old(pkt.seqNo) + i
      invariant i > 0 ==> Packable(pkt.driver, pixels) && old(pkt.seqNo) + i <= 0x1_0000
      invariant forall j :: 0 <= j < i ==>
        Packable(pkt.driver, pixels) && old(pkt.seqNo) + j <= 0xFFFF &&
        sent[j] == RawFrame(old(pkt.seqNo) + j, pkt.flags, PackPixels(pkt.driver, pixels).value)
    {
      var r := pkt.PackRawFrame(pixels);
      if r.None? {
        return sent, false;
      }
      sent := sent + [r.value];
      i := i + 1;
    }
    return sent, true;
  }

  /** One packet from a sending node to a listening node with the same
      driver: `sendRawFrame` then `decodePacket`, the network left out. On
      success the sender's counter has advanced by one, the receiver's length
      and CRC checks both pass and it sees the sender's sequence number,
      flags, message type and packed pixels. A frame that cannot be built
      leaves both nodes as they were. */
  method Exchange(sender: Packet, receiver: Packet, pixels: seq<Rgb>) returns (ok: bool)
    requires sender.Valid() && receiver.Valid() && sender != receiver
    requires sender.driver == receiver.driver
    modifies sender`seqNo
    modifies receiver`rcvdLen, receiver`payloadLen, receiver`payloadCrc, receiver`payloadSeq,
      receiver`flags, receiver`msgType, receiver`payloadFbLen, receiver`fb, receiver`localCrc
    ensures sender.Valid() && receiver.Valid()
    ensures ok <==> Packable(sender.driver, pixels) && old(sender.seqNo) <= 0xFFFF
    ensures sender.seqNo == if ok then old(sender.seqNo) + 1 else old(sender.seqNo)
    ensures sender.flags == old(sender.flags) && receiver.seqNo == old(receiver.seqNo)
    ensures ok ==>
      && receiver.rcvdLen == receiver.payloadLen + 8
      && receiver.localCrc == receiver.payloadCrc
      && receiver.payloadSeq == old(sender.seqNo)
      && receiver.flags == old(sender.flags)
      && receiver.msgType == FB_RAW
      && receiver.payloadFbLen == GroupSize(sender.driver) * |pixels|
      && receiver.fb == UnpackPixels(sender.driver, PackPixels(sender.driver, pixels).value)
      && (sender.driver == WS2812 ==> receiver.fb == Ws2812Frame(pixels))
    ensures !ok ==> unchanged(receiver)
  {
    var r := sender.PackRawFrame(pixels);
    if r.None? {
      return false;
    }
    var d := PackPixels(sender.driver, pixels).value;
    RawFrameLayout(old(sender.seqNo), sender.flags as byte, d);
    RawFrameCarriesPixels(sender.driver, pixels, old(sender.seqNo), sender.flags as byte);
    var _ := receiver.Unpack(r.value);
    return true;
  }
}
