/** The two LED chipsets' pixel codecs (`ledSpeakPacketWs2812` and
    `ledSpeakPacketP9813`) and the choice between them by driver name
    (`ledSpeakNode.__init__`). Packing and unpacking are pure: a list of
    (r, g, b) tuples in, `bytes` out, and back. */
module Pixels {
  import opened Bytes
  import opened Bits

  /** A pixel as the caller hands it over: a Python tuple (r, g, b) of
      integers, not yet checked to be bytes. */
  datatype Rgb = Rgb(r: int, g: int, b: int)

  /** A decoded P9813 group as `unpackPixels` returns it: a 4-tuple whose
      components the source names (h, r, g, b). */
  datatype HeaderedPixel = HeaderedPixel(h: byte, r: byte, g: byte, b: byte)

  /** The chipset a packet object packs for. */
  datatype Driver = WS2812 | P9813

  /** What a codec's `unpackPixels` returns: 3-tuples for WS2812, 4-tuples
      for P9813. */
  datatype Frame = Ws2812Frame(pixels: seq<Rgb>) | P9813Frame(groups: seq<HeaderedPixel>)

  predicate IsByte(x: int) {
    0 <= x < 256
  }

  /** `struct.pack` with a `B` field accepts only 0..255. */
  predicate ValidPixel(p: Rgb) {
    IsByte(p.r) && IsByte(p.g) && IsByte(p.b)
  }

  predicate ValidPixels(ps: seq<Rgb>) {
    forall i :: 0 <= i < |ps| ==> ValidPixel(ps[i])
  }

  /** Bytes per pixel on the wire. */
  function GroupSize(d: Driver): (n: nat) {
    match d
    case WS2812 => 3
    case P9813 => 4
  }

  // ---------------------------------------------------------------- WS2812

  /** `ledSpeakPacketWs2812.packPixels` on byte-valued pixels: each pixel as
      the three bytes g, r, b. */
  function Ws2812Bytes(ps: seq<Rgb>): (r: seq<byte>)
    requires ValidPixels(ps)
    ensures |r| == 3 * |ps|
    ensures forall i :: 0 <= i < |ps| ==>
      r[3 * i] == ps[i].g && r[3 * i + 1] == ps[i].r && r[3 * i + 2] == ps[i].b
  {
    if ps == [] then []
    else
      var rest := Ws2812Bytes(ps[1..]);
      var r := [ps[0].g as byte, ps[0].r as byte, ps[0].b as byte] + rest;
      assert forall i :: 1 <= i < |ps| ==> r[3 * i] == rest[3 * (i - 1)];
      r
  }

  /** `ledSpeakPacketWs2812.unpackPixels`: consecutive groups of three bytes
      (g, r, b) become (r, g, b); a trailing partial group is dropped. */
  function Ws2812Pixels(bs: seq<byte>): (r: seq<Rgb>)
    ensures |r| == |bs| / 3
    ensures forall i :: 0 <= i < |r| ==> r[i] == Rgb(bs[3 * i + 1], bs[3 * i], bs[3 * i + 2])
  {
    if |bs| < 3 then []
    else
      var rest := Ws2812Pixels(bs[3..]);
      var r := [Rgb(bs[1], bs[0], bs[2])] + rest;
      assert forall i :: 1 <= i < |r| ==> r[i] == rest[i - 1];
      r
  }

  /** Unpacking what was packed gives back the pixels. */
  lemma {:induction false} Ws2812RoundTrip(ps: seq<Rgb>)
    requires ValidPixels(ps)
    ensures Ws2812Pixels(Ws2812Bytes(ps)) == ps
  {
    var bs := Ws2812Bytes(ps);
    var qs := Ws2812Pixels(bs);
    assert |qs| == |ps|;
    forall i | 0 <= i < |ps| ensures qs[i] == ps[i] {
    }
  }

  /** Packing what was unpacked gives back every complete group of bytes. */
  lemma {:induction false} Ws2812PackUnpack(bs: seq<byte>)
    ensures Ws2812Bytes(Ws2812Pixels(bs)) == bs[..|bs| / 3 * 3]
    decreases |bs|
  {
    if |bs| >= 3 {
      var ps := Ws2812Pixels(bs);
      var tail := bs[3..];
      Ws2812PackUnpack(tail);
      assert ps[1..] == Ws2812Pixels(tail);
      assert (|bs| - 3) / 3 * 3 + 3 == |bs| / 3 * 3;
      assert bs[..|bs| / 3 * 3] == bs[..3] + tail[..|tail| / 3 * 3];
    }
  }

  // ----------------------------------------------------------------- P9813

  /** `ledSpeakPacketP9813.pixelHeader`: 0xFF ^ (0x30 & (b >> 2))
      ^ (0x0C & (g >> 4)) ^ (0x03 & (r >> 6)). Its two top bits are always
      set, so it always fits the `B` field it is packed into. */
  function Header(r: byte, g: byte, b: byte): (h: nat)
    ensures 0xC0 <= h <= 0xFF
  {
    var fB := And(0x30, Shr(b, 2));
    var fG := And(0x0C, Shr(g, 4));
    var fR := And(0x03, Shr(r, 6));
    ClosedFormRange(r, g, b);
    Xor(Xor(Xor(0xFF, fB), fG), fR)
  }

  /** The header is two set bits followed by the complements of the top two
      bits of b, g and r: 0xFF - 16 * (b >> 6) - 4 * (g >> 6) - (r >> 6). */
  lemma HeaderFormula(r: byte, g: byte, b: byte)
    ensures Header(r, g, b) == 0xFF - 16 * (b / 64) - 4 * (g / 64) - r / 64
  {
    HeaderClosedForm(r, g, b);
  }

  /** The xor of the three fields into 0xFF, written out: the statement of
      HeaderFormula before Header is unfolded. */
  lemma HeaderClosedForm(r: byte, g: byte, b: byte)
    ensures Xor(Xor(Xor(0xFF, And(0x30, Shr(b, 2))), And(0x0C, Shr(g, 4))), And(0x03, Shr(r, 6)))
            == 0xFF - 16 * (b / 64) - 4 * (g / 64) - r / 64
  {
    BlueField(b);
    GreenField(g);
    RedField(r);
    HeaderXors(b / 64, g / 64, r / 64);
  }

  /** The header's closed form lies in 0xC0..0xFF: the subtracted digits
      add up to at most 63. */
  lemma ClosedFormRange(r: byte, g: byte, b: byte)
    ensures var h := Xor(Xor(Xor(0xFF, And(0x30, Shr(b, 2))), And(0x0C, Shr(g, 4))), And(0x03, Shr(r, 6)));
      0xC0 <= h <= 0xFF
  {
    HeaderClosedForm(r, g, b);
    TopBits(r);
    TopBits(g);
    TopBits(b);
    DigitsRange(b / 64, g / 64, r / 64);
  }

  lemma DigitsRange(x2: nat, x1: nat, x0: nat)
    requires x2 < 4 && x1 < 4 && x0 < 4
    ensures 0xC0 <= 0xFF - 16 * x2 - 4 * x1 - x0 <= 0xFF
  {
  }

  /** 0x30 & (b >> 2) holds the top two bits of b at bits 5..4. */
  lemma BlueField(b: byte)
    ensures And(0x30, Shr(b, 2)) == 16 * (b / 64)
  {
    var q := b / 4;
    assert Shr(b, 2) == q by { ShrValues(b); }
    var t := Shr(q, 4);
    assert t == b / 64 < 4 by { ShrValues(q); TopBits(b); }
    assert Pow2(4) == 16;
    AndTwoBits(4, q);
    assert And(0x30, q) == t * 16;
  }

  /** 0x0C & (g >> 4) holds the top two bits of g at bits 3..2. */
  lemma GreenField(g: byte)
    ensures And(0x0C, Shr(g, 4)) == 4 * (g / 64)
  {
    var q := g / 16;
    assert Shr(g, 4) == q by { ShrValues(g); }
    var t := Shr(q, 2);
    assert t == g / 64 < 4 by { ShrValues(q); TopBits(g); }
    assert Pow2(2) == 4;
    AndTwoBits(2, q);
    assert And(0x0C, q) == t * 4;
  }

  /** Shifting a byte right by 2 then 4, or by 4 then 2, is shifting it
      right by 6, and leaves its top two bits. */
  lemma TopBits(x: byte)
    ensures (x / 4) / 16 == x / 64 && (x / 16) / 4 == x / 64 && x / 64 < 4
  {
    if x < 64 {
    } else if x < 128 {
    } else if x < 192 {
    } else {
    }
  }

  /** 0x03 & (r >> 6) holds the top two bits of r at bits 1..0. */
  lemma RedField(r: byte)
    ensures And(0x03, Shr(r, 6)) == r / 64
  {
    ShrValues(r);
    AndTwoBits(0, r / 64);
  }

  /** The three fields occupy disjoint bits below the two top bits of 0xFF. */
  lemma HeaderXors(bt: nat, gt: nat, rt: nat)
    requires bt < 4 && gt < 4 && rt < 4
    ensures Xor(Xor(Xor(0xFF, 16 * bt), 4 * gt), rt) == 0xFF - 16 * bt - 4 * gt - rt
  {
    XorLow8(16 * bt);
    XorLow4(15 - bt, 4 * gt);
    XorLow2(4 * (15 - bt) + 3 - gt, rt);
  }

  lemma XorLow8(v: nat)
    requires v < 256
    ensures Xor(0xFF, v) == 0xFF - v
  {
    Pow2Values();
    XorLowOnes(0, 8, v);
  }

  lemma XorLow4(m: nat, v: nat)
    requires v < 16
    ensures Xor(16 * m + 15, v) == 16 * m + 15 - v
  {
    assert Pow2(4) == 16;
    XorLowOnes(m, 4, v);
  }

  lemma XorLow2(m: nat, v: nat)
    requires v < 4
    ensures Xor(4 * m + 3, v) == 4 * m + 3 - v
  {
    assert Pow2(2) == 4;
    XorLowOnes(m, 2, v);
  }

  /** Two pixels get the same header exactly when the top two bits of each
      channel agree. */
  lemma HeaderDependsOnTopBits(r: byte, g: byte, b: byte, r': byte, g': byte, b': byte)
    ensures Header(r, g, b) == Header(r', g', b') <==>
            r / 64 == r' / 64 && g / 64 == g' / 64 && b / 64 == b' / 64
  {
    HeaderFormula(r, g, b);
    HeaderFormula(r', g', b');
    Base4Digits(b / 64, g / 64, r / 64, b' / 64, g' / 64, r' / 64);
  }

  lemma Base4Digits(x2: nat, x1: nat, x0: nat, y2: nat, y1: nat, y0: nat)
    requires x2 < 4 && x1 < 4 && x0 < 4 && y2 < 4 && y1 < 4 && y0 < 4
    ensures 16 * x2 + 4 * x1 + x0 == 16 * y2 + 4 * y1 + y0 <==> x2 == y2 && x1 == y1 && x0 == y0
  {
  }

  /** One pixel's four bytes: header, b, g, r. */
  function P9813Group(p: Rgb): seq<byte>
    requires ValidPixel(p)
  {
    [Header(p.r, p.g, p.b) as byte, p.b as byte, p.g as byte, p.r as byte]
  }

  /** `ledSpeakPacketP9813.packPixels` on byte-valued pixels: each pixel as
      the four bytes header, b, g, r. */
  function P9813Bytes(ps: seq<Rgb>): (r: seq<byte>)
    requires ValidPixels(ps)
    ensures |r| == 4 * |ps|
    ensures forall i :: 0 <= i < |ps| ==>
      r[4 * i] == Header(ps[i].r, ps[i].g, ps[i].b) &&
      r[4 * i + 1] == ps[i].b && r[4 * i + 2] == ps[i].g && r[4 * i + 3] == ps[i].r
  {
    if ps == [] then []
    else
      var rest := P9813Bytes(ps[1..]);
      var r := P9813Group(ps[0]) + rest;
      assert forall i :: 1 <= i < |ps| ==> r[4 * i] == rest[4 * (i - 1)];
      r
  }

  /** `ledSpeakPacketP9813.unpackPixels`: each group of four bytes
      (x0, x1, x2, x3) becomes the tuple (x0, x2, x1, x3), the source's
      (h, r, g, b) read from (h, g, r, b); a trailing partial group is
      dropped. */
  function P9813Groups(bs: seq<byte>): (r: seq<HeaderedPixel>)
    ensures |r| == |bs| / 4
    ensures forall i :: 0 <= i < |r| ==>
      r[i] == HeaderedPixel(bs[4 * i], bs[4 * i + 2], bs[4 * i + 1], bs[4 * i + 3])
  {
    if |bs| < 4 then []
    else
      var rest := P9813Groups(bs[4..]);
      var r := [HeaderedPixel(bs[0], bs[2], bs[1], bs[3])] + rest;
      assert forall i :: 1 <= i < |r| ==> r[i] == rest[i - 1];
      r
  }

  /** Unpacking what was packed does not give back the pixel: tuple i is
      (header, g, b, r) of pixel i. */
  lemma P9813UnpackOfPack(ps: seq<Rgb>, i: nat)
    requires ValidPixels(ps) && i < |ps|
    ensures |P9813Groups(P9813Bytes(ps))| == |ps|
    ensures P9813Groups(P9813Bytes(ps))[i] ==
            HeaderedPixel(Header(ps[i].r, ps[i].g, ps[i].b), ps[i].g, ps[i].b, ps[i].r)
  {
    var bs := P9813Bytes(ps);
    assert 4 * i + 3 < |bs|;
  }

  /** The pixel and its header can still be recovered from the tuple by
      reading its components in the order (b, r, g). */
  lemma P9813Recover(ps: seq<Rgb>, i: nat)
    requires ValidPixels(ps) && i < |ps|
    ensures var t := P9813Groups(P9813Bytes(ps))[i];
            Rgb(t.b, t.r, t.g) == ps[i] && t.h == Header(t.b, t.r, t.g)
  {
    P9813UnpackOfPack(ps, i);
  }

  /** A witness that `unpackPixels` is not the inverse of `packPixels`. */
  lemma P9813NotInverse()
    ensures P9813Groups(P9813Bytes([Rgb(1, 2, 3)])) == [HeaderedPixel(0xFF, 2, 3, 1)]
  {
    HeaderFormula(1, 2, 3);
    P9813UnpackOfPack([Rgb(1, 2, 3)], 0);
  }

  // ------------------------------------------------------------- dispatch

  /** The packet object's `packPixels`: `None` where the source's
      `struct.pack` raises because a channel is not in 0..255. */
  function PackPixels(d: Driver, ps: seq<Rgb>): (r: Option<seq<byte>>)
    ensures r.Some? <==> ValidPixels(ps)
    ensures r.Some? ==> |r.value| == GroupSize(d) * |ps|
  {
    if !ValidPixels(ps) then None
    else match d
      case WS2812 => Some(Ws2812Bytes(ps))
      case P9813 => Some(P9813Bytes(ps))
  }

  /** The packet object's `unpackPixels`. */
  function UnpackPixels(d: Driver, bs: seq<byte>): (r: Frame)
    ensures r.Ws2812Frame? <==> d == WS2812
    ensures r.Ws2812Frame? ==> |r.pixels| == |bs| / 3
    ensures r.P9813Frame? ==> |r.groups| == |bs| / 4
  {
    match d
    case WS2812 => Ws2812Frame(Ws2812Pixels(bs))
    case P9813 => P9813Frame(P9813Groups(bs))
  }

  /** WS2812 `packPixels([(1, 2, 3)])` is the bytes 2, 1, 3 (g, r, b). */
  lemma Ws2812Example()
    ensures PackPixels(WS2812, [Rgb(1, 2, 3)]) == Some([2, 1, 3])
  {
    var ps := [Rgb(1, 2, 3)];
    assert ValidPixel(ps[0]);
    var bs := Ws2812Bytes(ps);
    assert bs == [2, 1, 3];
  }

  /** P9813 `packPixels([(255, 0, 0)])` is 0xFC, 0, 0, 0xFF (header, b, g, r). */
  lemma P9813Example()
    ensures PackPixels(P9813, [Rgb(255, 0, 0)]) == Some([0xFC, 0x00, 0x00, 0xFF])
  {
    var ps := [Rgb(255, 0, 0)];
    HeaderFormula(255, 0, 0);
    assert Header(255, 0, 0) == 0xFC;
    assert ValidPixel(ps[0]);
    var bs := P9813Bytes(ps);
    assert bs == [0xFC, 0x00, 0x00, 0xFF];
  }

  /** The `--drv` name of each driver. */
  function DriverName(d: Driver): (name: string) {
    match d
    case P9813 => "p9813"
    case WS2812 => "ws2812"
  }

  /** The dispatch in `ledSpeakNode.__init__`: "p9813" and "ws2812" pick a
      codec; any other name is fatal, modelled as `None`. */
  function SelectDriver(name: string): (r: Option<Driver>)
    ensures r.Some? ==> name == DriverName(r.value)
    ensures r.None? <==> name != "p9813" && name != "ws2812"
  {
    if name == "p9813" then Some(P9813)
    else if name == "ws2812" then Some(WS2812)
    else None
  }

  /** Selection inverts DriverName: a name selects a driver exactly when it is
      that driver's name. */
  lemma SelectDriverInvertsName(name: string, d: Driver)
    ensures SelectDriver(name) == Some(d) <==> name == DriverName(d)
  {
  }
}
