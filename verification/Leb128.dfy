/** Raw reads from a mapped image and LEB128 numbers (section 7.6 of DWARF 5),
    given by their mathematical values. */
module Leb128 {
  import opened Words

  /** A loaded image; positions are byte offsets from its base. A byte outside
      the image reads as zero. */
  type Image = seq<u8>

  function Byte(img: Image, p: int): u8 {
    if 0 <= p < |img| then img[p] else 0
  }

  function Get16(img: Image, p: int): u16 {
    Byte(img, p) + 0x100 * Byte(img, p + 1)
  }

  function Get32(img: Image, p: int): u32 {
    Get16(img, p) + 0x1_0000 * Get16(img, p + 2)
  }

  /** The position after the LEB128 number at `p`: past its first byte with
      the top bit clear. */
  function LebEnd(img: Image, p: int): (end: int)
    ensures p < end
    decreases |img| - p
  {
    if Byte(img, p) < 0x80 then p + 1 else LebEnd(img, p + 1)
  }

  /** The unsigned number encoded at `p`, unbounded. */
  function ULeb(img: Image, p: int): nat
    decreases |img| - p
  {
    var b := Byte(img, p);
    if b < 0x80 then b else b - 0x80 + 0x80 * ULeb(img, p + 1)
  }

  /** The signed number encoded at `p`, unbounded: bit 6 of the last byte is the sign. */
  function SLeb(img: Image, p: int): int
    decreases |img| - p
  {
    var b := Byte(img, p);
    if b < 0x40 then b
    else if b < 0x80 then b - 0x80
    else b - 0x80 + 0x80 * SLeb(img, p + 1)
  }

  function EncodeU(x: nat): seq<u8> {
    if x < 0x80 then [x] else [x % 0x80 + 0x80] + EncodeU(x / 0x80)
  }

  function EncodeS(x: int): seq<u8>
    decreases if x < 0 then -x else x
  {
    if -0x40 <= x < 0x40 then [x % 0x80] else [x % 0x80 + 0x80] + EncodeS(x / 0x80)
  }

  /** The standard's own examples (section 7.6 of DWARF 5). */
  lemma StandardExamples()
    ensures EncodeU(2) == [2] && EncodeU(127) == [127] && EncodeU(128) == [0x80, 1] && EncodeU(129) == [0x81, 1]
    ensures EncodeU(12857) == [0xb9, 0x64]
    ensures EncodeS(2) == [2] && EncodeS(-2) == [0x7e] && EncodeS(127) == [0xff, 0] && EncodeS(-127) == [0x81, 0x7f]
    ensures EncodeS(128) == [0x80, 1] && EncodeS(-128) == [0x80, 0x7f] && EncodeS(129) == [0x81, 1] && EncodeS(-129) == [0xff, 0x7e]
  {
  }

  predicate Holds(img: Image, p: int, bytes: seq<u8>) {
    0 <= p <= p + |bytes| <= |img| && img[p..p + |bytes|] == bytes
  }

  lemma HoldsTail(img: Image, p: int, b: u8, rest: seq<u8>)
    requires Holds(img, p, [b] + rest)
    ensures Byte(img, p) == b && Holds(img, p + 1, rest)
  {
    var all := [b] + rest;
    assert img[p] == img[p..p + |all|][0];
    assert img[p + 1..p + 1 + |rest|] == img[p..p + |all|][1..];
  }

  lemma HoldsParts(img: Image, p: int, a: seq<u8>, b: seq<u8>)
    requires Holds(img, p, a + b)
    ensures Holds(img, p, a) && Holds(img, p + |a|, b)
  {
    var all := a + b;
    assert img[p..p + |a|] == img[p..p + |all|][..|a|];
    assert img[p + |a|..p + |a| + |b|] == img[p..p + |all|][|a|..];
  }

  lemma HoldsByte(img: Image, p: int, s: seq<u8>, i: nat)
    requires Holds(img, p, s) && i < |s|
    ensures Byte(img, p + i) == s[i]
  {
    assert img[p + i] == img[p..p + |s|][i];
  }

  // ----- words, least significant byte first -----

  function Bytes2(x: u16): (s: seq<u8>)
    ensures |s| == 2
  {
    [x % 0x100, x / 0x100]
  }

  function Bytes4(x: u32): (s: seq<u8>)
    ensures |s| == 4
  {
    [x % 0x100, x / 0x100 % 0x100, x / 0x1_0000 % 0x100, x / 0x100_0000]
  }

  lemma Read2(img: Image, p: int, x: u16)
    requires Holds(img, p, Bytes2(x))
    ensures Get16(img, p) == x
  {
    HoldsByte(img, p, Bytes2(x), 0);
    HoldsByte(img, p, Bytes2(x), 1);
    hide Byte;
  }

  lemma Read4(img: Image, p: int, x: u32)
    requires Holds(img, p, Bytes4(x))
    ensures Get32(img, p) == x
  {
    HoldsByte(img, p, Bytes4(x), 0);
    HoldsByte(img, p, Bytes4(x), 1);
    HoldsByte(img, p, Bytes4(x), 2);
    HoldsByte(img, p, Bytes4(x), 3);
    hide Byte, Holds;
    FourDigits(x);
  }

  lemma FourDigits(x: u32)
    ensures x == x % 0x100 + 0x100 * (x / 0x100 % 0x100) + 0x1_0000 * (x / 0x1_0000 % 0x100 + 0x100 * (x / 0x100_0000))
  {
  }

  lemma {:induction false} UnsignedRoundTrip(img: Image, p: int, x: nat)
    requires Holds(img, p, EncodeU(x))
    ensures ULeb(img, p) == x && LebEnd(img, p) == p + |EncodeU(x)|
    decreases x
  {
    if x < 0x80 {
      HoldsTail(img, p, x, []);
    } else {
      HoldsTail(img, p, x % 0x80 + 0x80, EncodeU(x / 0x80));
      UnsignedRoundTrip(img, p + 1, x / 0x80);
    }
  }

  lemma {:induction false} SignedRoundTrip(img: Image, p: int, x: int)
    requires Holds(img, p, EncodeS(x))
    ensures SLeb(img, p) == x && LebEnd(img, p) == p + |EncodeS(x)|
    decreases if x < 0 then -x else x
  {
    if -0x40 <= x < 0x40 {
      HoldsTail(img, p, x % 0x80, []);
    } else {
      HoldsTail(img, p, x % 0x80 + 0x80, EncodeS(x / 0x80));
      SignedRoundTrip(img, p + 1, x / 0x80);
    }
  }

  /** The signed reading differs from the unsigned one by the weight of the
      sign bit, which is what the reader's sign fill subtracts. */
  lemma {:induction false} SignWeight(img: Image, p: int)
    ensures var n := LebEnd(img, p) - p;
      SLeb(img, p) == ULeb(img, p) - (if Byte(img, p + n - 1) % 0x80 >= 0x40 then Pow2(7 * n) else 0)
    decreases |img| - p
  {
    Pow2Small();
    hide Pow2;
    if Byte(img, p) >= 0x80 {
      SignWeight(img, p + 1);
      var m := LebEnd(img, p + 1) - (p + 1);
      Pow2Seven(7 * m);
      assert 7 * m + 7 == 7 * (m + 1);
    }
  }
}
