/** Octets and the fixed-width big-endian words that the wire formats are built from. */
module Bytes {
  type byte = x: int | 0 <= x < 0x100
  type uint16 = x: int | 0 <= x < 0x1_0000
  type uint32 = x: int | 0 <= x < 0x1_0000_0000
  type int32 = x: int | -0x8000_0000 <= x < 0x8000_0000

  /** Two octets of the wire as a 16-bit word, high octet first. */
  function Word16(hi: byte, lo: byte): uint16 {
    0x100 * hi + lo
  }

  function Word32(b0: byte, b1: byte, b2: byte, b3: byte): uint32 {
    0x100_0000 * b0 + 0x1_0000 * b1 + 0x100 * b2 + b3
  }

  /** The C conversion of a 32-bit pattern to `int32_t`. */
  function Signed(u: uint32): int32 {
    if u < 0x8000_0000 then u else u - 0x1_0000_0000
  }

  /** The low 16 bits of `w`, high octet first. */
  function U16(w: nat): seq<byte> {
    [w / 0x100 % 0x100, w % 0x100]
  }

  /** The low 32 bits of `w`, high octet first. */
  function U32(w: nat): seq<byte> {
    [w / 0x100_0000 % 0x100, w / 0x1_0000 % 0x100, w / 0x100 % 0x100, w % 0x100]
  }

  function I32(e: int32): seq<byte> {
    U32(if e < 0 then e + 0x1_0000_0000 else e)
  }

  lemma U16RoundTrip(w: uint16)
    ensures Word16(U16(w)[0], U16(w)[1]) == w
  {
  }

  lemma Word16Split(hi: byte, lo: byte)
    ensures U16(Word16(hi, lo)) == [hi, lo]
  {
  }

  lemma U32RoundTrip(w: uint32)
    ensures var b := U32(w); Word32(b[0], b[1], b[2], b[3]) == w
  {
    assert w / 0x1_0000 == w / 0x100 / 0x100;
    assert w / 0x100_0000 == w / 0x1_0000 / 0x100 < 0x100;
  }

  lemma Word32Split(b0: byte, b1: byte, b2: byte, b3: byte)
    ensures U32(Word32(b0, b1, b2, b3)) == [b0, b1, b2, b3]
  {
    var w := Word32(b0, b1, b2, b3);
    assert w % 0x100 == b3 && w / 0x100 == 0x1_0000 * b0 + 0x100 * b1 + b2;
    assert w / 0x1_0000 == 0x100 * b0 + b1;
    assert w / 0x100_0000 == b0;
  }

  lemma ConsEquals<T>(x: T, xs: seq<T>, ys: seq<T>)
    ensures [x] + xs == ys <==> ys != [] && x == ys[0] && xs == ys[1..]
    ensures ([x] + xs)[0] == x && ([x] + xs)[1..] == xs
  {
    if ys != [] && x == ys[0] && xs == ys[1..] {
      assert ys == [ys[0]] + ys[1..];
    }
  }

  function Slice(b: seq<byte>, lo: nat, hi: nat): (r: seq<byte>)
    requires lo <= hi <= |b|
    ensures |r| == hi - lo
  {
    b[lo..hi]
  }

  /** The big-endian words that start at `b[at]`. */
  function Read16(b: seq<byte>, at: nat): uint16
    requires at + 2 <= |b|
  {
    Word16(b[at], b[at + 1])
  }

  function Read32(b: seq<byte>, at: nat): uint32
    requires at + 4 <= |b|
  {
    Word32(b[at], b[at + 1], b[at + 2], b[at + 3])
  }

  /** `part` stands in `b` at offset `at`. */
  predicate At(b: seq<byte>, at: nat, part: seq<byte>): (r: bool)
    ensures r ==> at + |part| <= |b|
    ensures part == [] && at <= |b| ==> r
  {
    at + |part| <= |b| && Slice(b, at, at + |part|) == part
  }

  lemma SliceEmpty(b: seq<byte>, at: nat)
    requires at <= |b|
    ensures Slice(b, at, at) == []
  {
  }

  lemma SliceAt(b: seq<byte>, at: nat, part: seq<byte>)
    requires At(b, at, part)
    ensures Slice(b, at, at + |part|) == part
  {
  }

  lemma AtAll(t: seq<byte>)
    ensures At(t, 0, t)
  {
  }

  lemma AtSplit(b: seq<byte>, at: nat, x: seq<byte>, y: seq<byte>)
    ensures At(b, at, x + y) <==> At(b, at, x) && At(b, at + |x|, y)
  {
    if At(b, at, x + y) {
      assert b[at..at + |x|] == b[at..at + |x + y|][..|x|];
      assert b[at + |x|..at + |x| + |y|] == b[at..at + |x + y|][|x|..];
    }
    if At(b, at, x) && At(b, at + |x|, y) {
      assert b[at..at + |x + y|] == b[at..at + |x|] + b[at + |x|..at + |x| + |y|];
    }
  }

  lemma AtSlice(b: seq<byte>, at: nat, end: nat)
    requires at <= end <= |b|
    ensures At(b, at, Slice(b, at, end))
  {
  }

  lemma AtOne(b: seq<byte>, at: nat)
    requires at < |b|
    ensures At(b, at, [b[at]])
  {
  }

  lemma AtTwo(b: seq<byte>, at: nat)
    requires at + 2 <= |b|
    ensures At(b, at, [b[at], b[at + 1]])
  {
  }

  lemma AtU16(b: seq<byte>, at: nat, w: uint16)
    requires At(b, at, U16(w))
    ensures |U16(w)| == 2 && Read16(b, at) == w
  {
    U16RoundTrip(w);
    assert b[at..at + 2][0] == b[at] && b[at..at + 2][1] == b[at + 1];
  }

  lemma AtU32(b: seq<byte>, at: nat, w: uint32)
    requires At(b, at, U32(w))
    ensures |U32(w)| == 4 && Read32(b, at) == w
  {
    U32RoundTrip(w);
    var p := b[at..at + 4];
    assert p[0] == b[at] && p[1] == b[at + 1] && p[2] == b[at + 2] && p[3] == b[at + 3];
  }

  lemma AtI32(b: seq<byte>, at: nat, e: int32)
    requires At(b, at, I32(e))
    ensures |I32(e)| == 4 && Signed(Read32(b, at)) == e
  {
    var u: int := if e < 0 then e + 0x1_0000_0000 else e;
    AtU32(b, at, u);
  }

  lemma AtOctet(b: seq<byte>, at: nat, part: seq<byte>, i: nat)
    requires At(b, at, part) && i < |part|
    ensures b[at + i] == part[i]
  {
    assert Slice(b, at, at + |part|)[i] == b[at + i];
  }

  lemma AtRead16(b: seq<byte>, at: nat)
    requires at + 2 <= |b|
    ensures At(b, at, U16(Read16(b, at))) && |U16(Read16(b, at))| == 2
  {
    Word16Split(b[at], b[at + 1]);
  }

  lemma AtRead32(b: seq<byte>, at: nat)
    requires at + 4 <= |b|
    ensures At(b, at, U32(Read32(b, at))) && |U32(Read32(b, at))| == 4
  {
    Word32Split(b[at], b[at + 1], b[at + 2], b[at + 3]);
  }

  /** Memory after `part` has been copied over it from `off` on. */
  function Overwrite(base: seq<byte>, off: nat, part: seq<byte>): (r: seq<byte>)
    requires off + |part| <= |base|
    ensures |r| == |base|
    ensures r[off..off + |part|] == part
    ensures part == [] ==> r == base
  {
    base[..off] + part + base[off + |part|..]
  }

  lemma OverwriteIs(base: seq<byte>, off: nat, part: seq<byte>, k: nat)
    requires off + |part| <= |base| && k < |base|
    ensures Overwrite(base, off, part)[k] == if off <= k < off + |part| then part[k - off] else base[k]
  {
  }

  lemma OverwriteBelow(base: seq<byte>, off: nat, part: seq<byte>)
    requires off + |part| <= |base|
    ensures forall k | 0 <= k < off :: Overwrite(base, off, part)[k] == base[k]
  {
  }

  lemma OverwriteAll(base: seq<byte>, part: seq<byte>)
    requires |part| == |base|
    ensures Overwrite(base, 0, part) == part
  {
  }

  lemma OverwriteTwice(base: seq<byte>, off: nat, part: seq<byte>, more: seq<byte>)
    requires off + |part| + |more| <= |base|
    ensures Overwrite(Overwrite(base, off, part), off + |part|, more) == Overwrite(base, off, part + more)
  {
  }
}
