/** Bytes, the Option wrapper, and the big-endian unsigned integers that
    Python's `struct` module packs with the `>H` and `>I` formats. */
module Bytes {

  /** One octet of a `bytes` object. */
  type byte = x: int | 0 <= x < 256

  datatype Option<+T> = None | Some(value: T)

  /** 256 to the power n: the number of values an n-byte field can hold. */
  function Pow256(n: nat): (r: nat)
    ensures r >= 1
  {
    if n == 0 then 1 else 256 * Pow256(n - 1)
  }

  lemma Pow256Values()
    ensures Pow256(1) == 0x100 && Pow256(2) == 0x1_0000 && Pow256(4) == 0x1_0000_0000
  {
  }

  /** The value of a big-endian unsigned field (most significant byte first). */
  function BeValue(s: seq<byte>): (r: nat)
    ensures r < Pow256(|s|)
  {
    if s == [] then 0 else 256 * BeValue(s[..|s| - 1]) + s[|s| - 1]
  }

  /** `struct.pack('>H' or '>I', x)`: x written as n big-endian bytes.
      `struct` refuses a value that does not fit, hence the precondition. */
  function BeBytes(x: nat, n: nat): (r: seq<byte>)
    requires x < Pow256(n)
    ensures |r| == n
  {
    if n == 0 then [] else BeBytes(x / 256, n - 1) + [x % 256]
  }

  /** Decoding an encoded field gives back the value. */
  lemma {:induction false} BeValueOfBeBytes(x: nat, n: nat)
    requires x < Pow256(n)
    ensures BeValue(BeBytes(x, n)) == x
  {
    if n > 0 {
      var r := BeBytes(x, n);
      assert r[..n - 1] == BeBytes(x / 256, n - 1);
      BeValueOfBeBytes(x / 256, n - 1);
    }
  }

  /** Encoding a decoded field gives back the bytes. */
  lemma {:induction false} BeBytesOfBeValue(s: seq<byte>)
    ensures BeBytes(BeValue(s), |s|) == s
  {
    if s != [] {
      var init := s[..|s| - 1];
      BeBytesOfBeValue(init);
      assert BeValue(s) / 256 == BeValue(init);
      assert s == init + [s[|s| - 1]];
    }
  }

  /** Two fields of the same width are equal exactly when their values are. */
  lemma BeValueInjective(s: seq<byte>, t: seq<byte>)
    requires |s| == |t|
    ensures BeValue(s) == BeValue(t) <==> s == t
  {
    if BeValue(s) == BeValue(t) {
      BeBytesOfBeValue(s);
      BeBytesOfBeValue(t);
    }
  }

  /** The unsigned value stored at bytes [off, off + n) of s. */
  function FieldAt(s: seq<byte>, off: nat, n: nat): (r: nat)
    requires off + n <= |s|
    ensures r < Pow256(n)
  {
    BeValue(s[off..off + n])
  }
}
