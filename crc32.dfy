/** The checksum `ledSpeakPacket.calcCrc` delegates to `binascii.crc32`: the
    common CRC-32 of zlib (ISO-HDLC: reflected polynomial 0xEDB88320, initial
    register 0xFFFFFFFF, final complement), computed one bit at a time.
    Registers are naturals below 2^32. */
module Checksum {
  import opened Bytes
  import opened Bits

  const Poly: nat := 0xEDB8_8320
  const AllOnes: nat := 0xFFFF_FFFF

  /** One shift of the reflected CRC register. */
  function Step(c: nat): (r: nat) {
    if c % 2 == 1 then Xor(c / 2, Poly) else c / 2
  }

  /** n shifts of the register. */
  function StepN(c: nat, n: nat): (r: nat) {
    if n == 0 then c else Step(StepN(c, n - 1))
  }

  /** The register after one byte: the byte is xored into the low end and
      shifted out in eight steps. */
  function Feed(c: nat, x: byte): (r: nat) {
    StepN(Xor(c, x), 8)
  }

  /** The register after feeding `data`, starting from register `c`. */
  function Register(c: nat, data: seq<byte>): (r: nat)
    decreases |data|
  {
    if data == [] then c else Register(Feed(c, data[0]), data[1..])
  }

  /** `binascii.crc32(data)`, an unsigned 32-bit value in Python 3. */
  function Crc32(data: seq<byte>): (r: nat)
    ensures r < 0x1_0000_0000
  {
    Pow2Values();
    RegisterBound(AllOnes, data);
    XorBound(Register(AllOnes, data), AllOnes, 32);
    Xor(Register(AllOnes, data), AllOnes)
  }

  lemma {:induction false} StepNBound(c: nat, n: nat)
    requires c < Pow2(32)
    ensures StepN(c, n) < Pow2(32)
  {
    if n > 0 {
      StepNBound(c, n - 1);
      var d := StepN(c, n - 1);
      if d % 2 == 1 {
        Pow2Values();
        XorBound(d / 2, Poly, 32);
      }
    }
  }

  lemma FeedBound(c: nat, x: byte)
    requires c < Pow2(32)
    ensures Feed(c, x) < Pow2(32)
  {
    Pow2Values();
    XorBound(c, x, 32);
    StepNBound(Xor(c, x), 8);
  }

  lemma {:induction false} RegisterBound(c: nat, data: seq<byte>)
    requires c < Pow2(32)
    ensures Register(c, data) < Pow2(32)
    decreases |data|
  {
    if data != [] {
      FeedBound(c, data[0]);
      RegisterBound(Feed(c, data[0]), data[1..]);
    }
  }

  /** The register shift is one-to-one on 32-bit registers: the polynomial's
      top bit is set, so a register shifted with it and one shifted without
      it never meet. */
  lemma StepInjective(a: nat, b: nat)
    requires a < Pow2(32) && b < Pow2(32) && a != b
    ensures Step(a) != Step(b)
  {
    Pow2Values();
    if a % 2 == 1 && b % 2 == 1 {
      if Xor(a / 2, Poly) == Xor(b / 2, Poly) {
        XorCommutes(a / 2, Poly);
        XorCommutes(b / 2, Poly);
        XorCancel(Poly, a / 2, b / 2);
      }
    } else if a % 2 == 1 {
      XorTopBit(a / 2, Poly, 31);
    } else if b % 2 == 1 {
      XorTopBit(b / 2, Poly, 31);
    }
  }

  lemma {:induction false} StepNInjective(a: nat, b: nat, n: nat)
    requires a < Pow2(32) && b < Pow2(32) && a != b
    ensures StepN(a, n) != StepN(b, n)
  {
    if n > 0 {
      StepNInjective(a, b, n - 1);
      StepNBound(a, n - 1);
      StepNBound(b, n - 1);
      StepInjective(StepN(a, n - 1), StepN(b, n - 1));
    }
  }

  /** Registers that differ stay different after the same byte. */
  lemma FeedInjective(c1: nat, c2: nat, x: byte)
    requires c1 < Pow2(32) && c2 < Pow2(32) && c1 != c2
    ensures Feed(c1, x) != Feed(c2, x)
  {
    Pow2Values();
    XorBound(c1, x, 32);
    XorBound(c2, x, 32);
    if Xor(c1, x) == Xor(c2, x) {
      XorCommutes(c1, x);
      XorCommutes(c2, x);
      XorCancel(x, c1, c2);
    }
    StepNInjective(Xor(c1, x), Xor(c2, x), 8);
  }

  /** Different bytes lead the same register to different registers. */
  lemma FeedSeesByte(c: nat, x: byte, y: byte)
    requires c < Pow2(32) && x != y
    ensures Feed(c, x) != Feed(c, y)
  {
    Pow2Values();
    XorBound(c, x, 32);
    XorBound(c, y, 32);
    if Xor(c, x) == Xor(c, y) {
      XorCancel(c, x, y);
    }
    StepNInjective(Xor(c, x), Xor(c, y), 8);
  }

  /** Registers that differ stay different whatever data follows. */
  lemma {:induction false} RegistersStayDistinct(c1: nat, c2: nat, data: seq<byte>)
    requires c1 < Pow2(32) && c2 < Pow2(32) && c1 != c2
    ensures Register(c1, data) != Register(c2, data)
    decreases |data|
  {
    if data != [] {
      FeedInjective(c1, c2, data[0]);
      FeedBound(c1, data[0]);
      FeedBound(c2, data[0]);
      RegistersStayDistinct(Feed(c1, data[0]), Feed(c2, data[0]), data[1..]);
    }
  }

  /** Changing one byte of the data changes the register. */
  lemma {:induction false} RegisterSeesOneByte(c: nat, a: seq<byte>, b: seq<byte>, k: nat)
    requires c < Pow2(32)
    requires |a| == |b| && k < |a| && a[k] != b[k]
    requires forall i :: 0 <= i < |a| && i != k ==> a[i] == b[i]
    ensures Register(c, a) != Register(c, b)
    decreases k
  {
    FeedBound(c, a[0]);
    FeedBound(c, b[0]);
    if k == 0 {
      FeedSeesByte(c, a[0], b[0]);
      assert a[1..] == b[1..];
      RegistersStayDistinct(Feed(c, a[0]), Feed(c, b[0]), a[1..]);
    } else {
      assert a[0] == b[0];
      RegisterSeesOneByte(Feed(c, a[0]), a[1..], b[1..], k - 1);
    }
  }

  /** CRC-32 detects every change confined to a single byte, in particular
      every single flipped bit. */
  lemma Crc32DetectsOneByteChange(a: seq<byte>, b: seq<byte>, k: nat)
    requires |a| == |b| && k < |a| && a[k] != b[k]
    requires forall i :: 0 <= i < |a| && i != k ==> a[i] == b[i]
    ensures Crc32(a) != Crc32(b)
  {
    Pow2Values();
    RegisterSeesOneByte(AllOnes, a, b, k);
    var ra, rb := Register(AllOnes, a), Register(AllOnes, b);
    if Xor(ra, AllOnes) == Xor(rb, AllOnes) {
      XorCommutes(ra, AllOnes);
      XorCommutes(rb, AllOnes);
      XorCancel(AllOnes, ra, rb);
    }
  }

  /** The CRC-32 of no bytes is 0. */
  lemma Crc32OfEmpty()
    ensures Crc32([]) == 0
  {
    XorSelf(AllOnes);
  }
}
