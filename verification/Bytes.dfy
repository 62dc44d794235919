/** Bytes, 32-bit little-endian words and in-place stores, as the C++ sources use them. */
module Bytes {

  type byte = x: int | 0 <= x < 0x100
  type u32 = x: int | 0 <= x < 0x1_0000_0000

  datatype Option<T> = None | Some(value: T)

  const TWO32: int := 0x1_0000_0000

  /** The first word of every minidump. */
  const MDMP_SIGNATURE: u32 := 0x504D444D

  /** The sum of two `uint32_t` values: it wraps modulo 2^32. */
  function Add32(a: u32, b: u32): u32 {
    if a + b < TWO32 then a + b else a + b - TWO32
  }

  /** The half-open interval [off, off + len) of buffer positions. */
  predicate In(p: int, off: int, len: int) {
    off <= p < off + len
  }

  ghost predicate Disjoint(a: int, alen: int, b: int, blen: int) {
    alen <= 0 || blen <= 0 || a + alen <= b || b + blen <= a
  }

  /** The bytes of a text in ASCII. */
  function Ascii(s: string): (r: seq<byte>)
    ensures |r| == |s|
  {
    seq(|s|, k requires 0 <= k < |s| => s[k] as int % 0x100)
  }

  function Le16(v: nat): (r: seq<byte>)
    requires v < 0x1_0000
    ensures |r| == 2
  {
    [v % 0x100, v / 0x100]
  }

  function Le32(v: u32): (r: seq<byte>)
    ensures |r| == 4
  {
    Le16(v % 0x1_0000) + Le16(v / 0x1_0000)
  }

  /** The value of a little-endian number. */
  function FromLe(s: seq<byte>): nat {
    if s == [] then 0 else s[0] + 0x100 * FromLe(s[1..])
  }

  lemma WordIs(s: seq<byte>)
    requires |s| == 4
    ensures FromLe(s) == (s[0] as int) + 0x100 * (s[1] as int) + 0x1_0000 * (s[2] as int) + 0x100_0000 * (s[3] as int)
  {
    assert s[1..][1..] == s[2..] && s[2..][1..] == s[3..];
    assert FromLe(s[3..]) == s[3];
    assert FromLe(s[2..]) == s[2] + 0x100 * FromLe(s[3..]);
    assert FromLe(s[1..]) == s[1] + 0x100 * FromLe(s[2..]);
  }

  function Word(s: seq<byte>): u32
    requires |s| == 4
  {
    WordIs(s);
    FromLe(s)
  }

  function U32At(buf: seq<byte>, off: nat): u32
    requires off + 4 <= |buf|
  {
    Word(buf[off..off + 4])
  }

  /** A read that does not fit yields 0. */
  function ReadU32(buf: seq<byte>, off: nat): (r: u32)
    ensures off + 4 > |buf| ==> r == 0
  {
    if off + 4 > |buf| then 0 else U32At(buf, off)
  }

  /** `data` overwrites the bytes at [off, off + |data|). */
  function Store(buf: seq<byte>, off: nat, data: seq<byte>): (r: seq<byte>)
    requires off + |data| <= |buf|
    ensures |r| == |buf|
    ensures forall p :: 0 <= p < |buf| ==> r[p] == if In(p, off, |data|) then data[p - off] else buf[p]
  {
    buf[..off] + data + buf[off + |data|..]
  }

  /** A write that does not fit is dropped. */
  function WriteU32(buf: seq<byte>, off: nat, v: u32): (r: seq<byte>)
    ensures |r| == |buf| && (off + 4 > |buf| ==> r == buf)
  {
    if off + 4 > |buf| then buf else Store(buf, off, Le32(v))
  }

  ghost predicate AgreeOn(a: seq<byte>, b: seq<byte>, off: int, len: int) {
    forall p {:trigger b[p]} :: 0 <= p < |a| && p < |b| && In(p, off, len) ==> a[p] == b[p]
  }

  lemma WordOfLe32(v: u32)
    ensures Word(Le32(v)) == v
  {
    WordIs(Le32(v));
  }

  /** A word stored by WriteU32 is the word read back there. */
  lemma ReadOfLe32(buf: seq<byte>, off: nat, v: u32)
    requires off + 4 <= |buf| && buf[off..off + 4] == Le32(v)
    ensures ReadU32(buf, off) == v
  {
    WordOfLe32(v);
  }

  lemma ReadAgree(a: seq<byte>, b: seq<byte>, off: nat)
    requires |a| == |b| && AgreeOn(a, b, off, 4)
    ensures ReadU32(a, off) == ReadU32(b, off)
  {
    if off + 4 <= |a| {
      assert a[off..off + 4] == b[off..off + 4];
    }
  }

  /** In the file the first word of a minidump reads "MDMP". */
  lemma MagicIs(buf: seq<byte>)
    requires |buf| >= 4
    ensures ReadU32(buf, 0) == MDMP_SIGNATURE <==> buf[..4] == Ascii("MDMP")
  {
    WordIs(buf[0..4]);
    var text := Ascii("MDMP");
    assert text == [0x4D, 0x44, 0x4D, 0x50];
    assert buf[..4] == [buf[0], buf[1], buf[2], buf[3]];
  }
}
