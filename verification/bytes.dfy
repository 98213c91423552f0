/** Byte buffers: the per-8-byte word reversal both scripts use, the int8
    view of a byte, and the two-digit hex spelling of bytes. */
module Bytes {
  import opened Text

  type Byte = x: int | 0 <= x < 256

  function ZeroBytes(k: nat): (z: seq<Byte>)
    ensures |z| == k && forall i :: 0 <= i < k ==> z[i] == 0
  {
    seq(k, _ => 0)
  }

  /** `s[::-1]`. */
  function Reverse<T>(s: seq<T>): seq<T> {
    seq(|s|, i requires 0 <= i < |s| => s[|s| - 1 - i])
  }

  lemma ReverseReverse<T>(s: seq<T>)
    ensures Reverse(Reverse(s)) == s
  {
  }

  /** Where byte `i` of an `n`-byte buffer comes from under the per-word
      reversal: the mirror position inside its own 8-byte word, where the
      last word may be shorter than 8. */
  function WordMirror(i: nat, n: nat): nat
    requires i < n
  {
    var base := i - i % 8;
    var len := if n - base < 8 then n - base else 8;
    base + len - 1 - i % 8
  }

  /** The mirror positions inside the first word, and past it those of the
      buffer without its first word moved up by 8. */
  lemma WordMirrorShift(n: nat)
    ensures forall i :: 0 <= i < n && i < 8 ==> WordMirror(i, n) == (if n < 8 then n else 8) - 1 - i
    ensures forall i :: 8 <= i < n ==> WordMirror(i, n) == 8 + WordMirror(i - 8, n - 8)
  {
    forall i | 8 <= i < n
      ensures WordMirror(i, n) == 8 + WordMirror(i - 8, n - 8)
    {
      assert (i - 8) % 8 == i % 8;
    }
  }

  /** `_reverse_per8`: reverse the byte order inside each consecutive 8-byte
      word; a short final word is reversed on its own. */
  function ReversePer8<T>(b: seq<T>): (r: seq<T>)
    ensures |r| == |b|
    ensures forall i :: 0 <= i < |b| ==> WordMirror(i, |b|) < |b| && r[i] == b[WordMirror(i, |b|)]
  {
    WordMirrorShift(|b|);
    if |b| <= 8 then Reverse(b)
    else Reverse(b[..8]) + ReversePer8(b[8..])
  }

  /** The per-word reversal is its own inverse. */
  lemma {:induction false} ReversePer8Involution<T>(b: seq<T>)
    ensures ReversePer8(ReversePer8(b)) == b
  {
    if |b| <= 8 {
      ReverseReverse(b);
    } else {
      var r8 := Reverse(b[..8]);
      var rest := ReversePer8(b[8..]);
      assert ReversePer8(b) == r8 + rest;
      assert (r8 + rest)[..8] == r8 && (r8 + rest)[8..] == rest;
      ReverseReverse(b[..8]);
      ReversePer8Involution(b[8..]);
      assert b[..8] + b[8..] == b;
    }
  }

  /** Numpy's `view(np.int8)` of one byte: two's-complement reinterpretation. */
  function ToSigned(b: Byte): (x: int)
    ensures -128 <= x < 128
    ensures (x - b) % 256 == 0
  {
    if b < 128 then b else b - 256
  }

  /** Numpy's `view(np.uint8)` of one int8 value. */
  function FromSigned(x: int): (b: Byte)
    requires -128 <= x < 128
    ensures ToSigned(b) == x
  {
    if x < 0 then x + 256 else x
  }

  lemma SignedRoundTrip(b: Byte)
    ensures FromSigned(ToSigned(b)) == b
  {
  }

  /** `format(b, "02x")`. */
  function HexOfByte(b: Byte): string {
    [HexChar(b / 16), HexChar(b % 16)]
  }

  /** `bytes.hex()`: two lower-case digits per byte, nothing in between. */
  function HexOfBytes(bs: seq<Byte>): (h: string)
    ensures |h| == 2 * |bs| && AllHex(h) && NoSlash(h)
    ensures forall i :: 0 <= i < |h| ==> !IsSpace(h[i])
  {
    if |bs| == 0 then "" else HexOfByte(bs[0]) + HexOfBytes(bs[1..])
  }

  /** `bytes.fromhex` on a string of an even number of hex digits. */
  function FromHex(h: string): (bs: seq<Byte>)
    requires AllHex(h) && |h| % 2 == 0
    ensures |bs| == |h| / 2
  {
    if |h| == 0 then [] else [HexValue(h[0]) * 16 + HexValue(h[1])] + FromHex(h[2..])
  }

  /** Decoding the hex spelling of bytes gives the bytes back. */
  lemma {:induction false} FromHexOfBytes(bs: seq<Byte>)
    ensures FromHex(HexOfBytes(bs)) == bs
  {
    if |bs| > 0 {
      var h := HexOfBytes(bs);
      assert h[2..] == HexOfBytes(bs[1..]);
      FromHexOfBytes(bs[1..]);
      assert h[0] == HexChar(bs[0] / 16) && h[1] == HexChar(bs[0] % 16);
    }
  }
}
