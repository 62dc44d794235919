/** The XOR fallback ID over the first bytes of `.text`, in both chunkings. */
module TextHash {
  import opened Bytes

  const HASH_SIZE := 16
  const MAX_BYTES := 4096

  /** `^` on the last `width` bits: bit by bit, the sum modulo 2. */
  function XorBits(a: nat, b: nat, width: nat): nat {
    if width == 0 then 0 else (a + b) % 2 + 2 * XorBits(a / 2, b / 2, width - 1)
  }

  function Pow2(width: nat): nat {
    if width == 0 then 1 else 2 * Pow2(width - 1)
  }

  lemma {:induction false} XorFits(a: nat, b: nat, width: nat)
    ensures XorBits(a, b, width) < Pow2(width)
    ensures a < Pow2(width) ==> XorBits(a, 0, width) == a
    decreases width
  {
    if width > 0 {
      XorFits(a / 2, b / 2, width - 1);
    }
  }

  /** `^` on bytes. */
  function Xor(a: byte, b: byte): byte {
    XorFits(a, b, 8);
    assert Pow2(8) == 0x100;
    XorBits(a, b, 8)
  }

  lemma XorZero(a: byte)
    ensures Xor(a, 0) == a
  {
    XorFits(a, 0, 8);
    assert Pow2(8) == 0x100;
  }

  /** The number of bytes hashed: whole chunks covering min(size, 4096) bytes. */
  function HashedBytes(size: nat): (n: nat)
    ensures n % HASH_SIZE == 0
    ensures var limit := if size < MAX_BYTES then size else MAX_BYTES;
      limit <= n < limit + HASH_SIZE
  {
    var limit := if size < MAX_BYTES then size else MAX_BYTES;
    (limit + HASH_SIZE - 1) / HASH_SIZE * HASH_SIZE
  }

  /** A byte of the mapped file: the mapping is zero-filled past the end of the file. */
  function Mapped(file: seq<byte>, p: nat): byte {
    if p < |file| then file[p] else 0
  }

  /** Lane `k`: the XOR of the mapped bytes at off + i for all i below `n` with i mod 16 = k. */
  function Lane(file: seq<byte>, off: nat, n: nat, k: nat): byte
    requires k < HASH_SIZE
    decreases n
  {
    if n == 0 then 0
    else if (n - 1) % HASH_SIZE == k then Xor(Lane(file, off, n - 1, k), Mapped(file, off + n - 1))
    else Lane(file, off, n - 1, k)
  }

  function LaneHash(file: seq<byte>, off: nat, n: nat): (h: seq<byte>)
    ensures |h| == HASH_SIZE
  {
    seq(HASH_SIZE, k requires 0 <= k < HASH_SIZE => Lane(file, off, n, k))
  }

  /** Within a chunk a lane changes once, at its own byte. */
  lemma {:induction false} LaneInChunk(file: seq<byte>, off: nat, chunk: nat, d: nat, k: nat)
    requires chunk % HASH_SIZE == 0 && d <= HASH_SIZE && k < HASH_SIZE
    ensures Lane(file, off, chunk + d, k) ==
      if k < d then Xor(Lane(file, off, chunk, k), Mapped(file, off + chunk + k)) else Lane(file, off, chunk, k)
  {
    hide Xor, Mapped;
    if d > 0 {
      InChunk(chunk, d - 1);
      LaneInChunk(file, off, chunk, d - 1, k);
    }
  }

  lemma InChunk(chunk: nat, d: nat)
    requires chunk % HASH_SIZE == 0 && d < HASH_SIZE
    ensures (chunk + d) % HASH_SIZE == d
  {
  }

  /** The daemon's nested loop over the mapped file. */
  method XorTextHash(file: seq<byte>, off: nat, size: nat) returns (hash: array<byte>)
    ensures fresh(hash)
    ensures hash[..] == LaneHash(file, off, HashedBytes(size))
  {
    hide Xor, Mapped, Lane;
    hash := new byte[HASH_SIZE](_ => 0);
    var limit := if size < MAX_BYTES then size else MAX_BYTES;
    var j := 0;
    EmptyLanes(file, off);
    while j < limit
      invariant j % HASH_SIZE == 0 && j <= HashedBytes(size)
      invariant j >= limit ==> j == HashedBytes(size)
      invariant hash.Length == HASH_SIZE
      invariant forall k :: 0 <= k < HASH_SIZE ==> hash[k] == Lane(file, off, j, k)
    {
      for k := 0 to HASH_SIZE
        invariant forall m :: 0 <= m < HASH_SIZE ==>
          hash[m] == if m < k then Xor(Lane(file, off, j, m), Mapped(file, off + j + m)) else Lane(file, off, j, m)
      {
        hash[k] := Xor(hash[k], Mapped(file, off + j + k));
      }
      forall k | 0 <= k < HASH_SIZE
        ensures Lane(file, off, j + HASH_SIZE, k) == Xor(Lane(file, off, j, k), Mapped(file, off + j + k))
      {
        LaneInChunk(file, off, j, HASH_SIZE, k);
      }
      j := j + HASH_SIZE;
    }
  }

  lemma EmptyLanes(file: seq<byte>, off: nat)
    ensures forall k :: 0 <= k < HASH_SIZE ==> Lane(file, off, 0, k) == 0
  {
  }

  /** The Python twin: slice first, then pad the slice to whole chunks. */
  method PyXorTextHash(data: seq<byte>, off: nat, size: nat) returns (acc: array<byte>)
    ensures fresh(acc)
    ensures acc[..] == LaneHash(data, off, HashedBytes(size))
  {
    hide Xor, Lane, PaddedSlice;
    var chunk := PaddedSlice(data, off, size);
    acc := new byte[HASH_SIZE](_ => 0);
    EmptyLanes(data, off);
    var i := 0;
    while i < |chunk|
      invariant i % HASH_SIZE == 0 && i <= |chunk|
      invariant acc.Length == HASH_SIZE
      invariant forall k :: 0 <= k < HASH_SIZE ==> acc[k] == Lane(data, off, i, k)
    {
      for j := 0 to HASH_SIZE
        invariant forall m :: 0 <= m < HASH_SIZE ==>
          acc[m] == if m < j then Xor(Lane(data, off, i, m), Mapped(data, off + i + m)) else Lane(data, off, i, m)
      {
        acc[j] := Xor(acc[j], chunk[i + j]);
      }
      forall k | 0 <= k < HASH_SIZE
        ensures Lane(data, off, i + HASH_SIZE, k) == Xor(Lane(data, off, i, k), Mapped(data, off + i + k))
      {
        LaneInChunk(data, off, i, HASH_SIZE, k);
      }
      i := i + HASH_SIZE;
    }
    forall k | 0 <= k < HASH_SIZE
      ensures Lane(data, off, i, k) == Lane(data, off, HashedBytes(size), k)
    {
      if i < HashedBytes(size) {
        LanePastEnd(data, off, i, HashedBytes(size), k);
      }
    }
  }

  function PaddedSlice(data: seq<byte>, off: nat, size: nat): (chunk: seq<byte>)
    ensures |chunk| % HASH_SIZE == 0 && |chunk| <= HashedBytes(size)
    ensures |chunk| < HashedBytes(size) ==> off + |chunk| >= |data|
    ensures forall p :: 0 <= p < |chunk| ==> chunk[p] == Mapped(data, off + p)
  {
    hide HashedBytes;
    var limit := if size < MAX_BYTES then size else MAX_BYTES;
    PadIsRounding(size, limit);
    var slice := Slice(data, off, off + limit + PadTo(limit));
    var chunk := Padded(slice);
    MultipleBelow(|chunk|, HashedBytes(size));
    chunk
  }

  /** (-n) % 16 */
  function PadTo(n: nat): nat {
    (HASH_SIZE - n % HASH_SIZE) % HASH_SIZE
  }

  function Padded(s: seq<byte>): (r: seq<byte>)
    ensures |r| % HASH_SIZE == 0 && |s| <= |r| < |s| + HASH_SIZE
    ensures forall p :: 0 <= p < |r| ==> r[p] == if p < |s| then s[p] else 0
  {
    s + seq(PadTo(|s|), _ => 0)
  }

  lemma PadIsRounding(size: nat, limit: nat)
    requires limit == if size < MAX_BYTES then size else MAX_BYTES
    ensures limit + PadTo(limit) == HashedBytes(size)
  {
  }

  lemma MultipleBelow(a: nat, b: nat)
    requires a % HASH_SIZE == 0 && b % HASH_SIZE == 0 && a < b + HASH_SIZE
    ensures a <= b
  {
  }

  /** data[lo:hi] in Python: positions past the end are dropped. */
  function Slice(data: seq<byte>, lo: nat, hi: nat): seq<byte>
    requires lo <= hi
  {
    if lo >= |data| then [] else if hi > |data| then data[lo..] else data[lo..hi]
  }

  /** Bytes past the end of the file do not matter. */
  lemma {:induction false} LanePastEnd(file: seq<byte>, off: nat, m: nat, n: nat, k: nat)
    requires m <= n && off + m >= |file| && k < HASH_SIZE
    ensures Lane(file, off, n, k) == Lane(file, off, m, k)
    decreases n
  {
    hide Xor;
    if m < n {
      LanePastEnd(file, off, m, n - 1, k);
      XorZero(Lane(file, off, n - 1, k));
    }
  }

  // ----- The hash, bit by bit

  /** `p` is the place value of binary digit `j`. */
  predicate IsBit(p: nat, j: nat) {
    || (p == 1 && j == 0) || (p == 2 && j == 1) || (p == 4 && j == 2) || (p == 8 && j == 3)
    || (p == 16 && j == 4) || (p == 32 && j == 5) || (p == 64 && j == 6) || (p == 128 && j == 7)
  }

  function Digit(a: nat, j: nat): nat
    decreases j
  {
    if j == 0 then a % 2 else Digit(a / 2, j - 1)
  }

  lemma {:induction false} DigitIs(a: nat, p: nat, j: nat)
    requires IsBit(p, j)
    ensures Digit(a, j) == a / p % 2
    decreases j
  {
    if j > 0 {
      DigitIs(a / 2, p / 2, j - 1);
      assert a / 2 / (p / 2) == a / p;
    }
  }

  lemma LastDigit(bit: nat, rest: nat)
    requires bit < 2
    ensures (bit + 2 * rest) % 2 == bit && (bit + 2 * rest) / 2 == rest
  {
  }

  lemma SumOfDigits(a: nat, b: nat)
    ensures (a + b) % 2 == (a % 2 + b % 2) % 2
  {
  }

  lemma DigitStep(a: nat, j: nat)
    ensures Digit(a, j) == if j == 0 then a % 2 else Digit(a / 2, j - 1)
  {
  }

  lemma XorStep(a: nat, b: nat, width: nat)
    requires width > 0
    ensures XorBits(a, b, width) % 2 == (a % 2 + b % 2) % 2
    ensures XorBits(a, b, width) / 2 == XorBits(a / 2, b / 2, width - 1)
  {
    LastDigit((a + b) % 2, XorBits(a / 2, b / 2, width - 1));
    SumOfDigits(a, b);
  }

  lemma {:induction false} XorDigit(a: nat, b: nat, width: nat, j: nat)
    requires j < width
    ensures Digit(XorBits(a, b, width), j) == (Digit(a, j) + Digit(b, j)) % 2
    decreases j
  {
    hide XorBits, Digit;
    XorStep(a, b, width);
    DigitStep(XorBits(a, b, width), j);
    DigitStep(a, j);
    DigitStep(b, j);
    if j > 0 {
      XorDigit(a / 2, b / 2, width - 1, j - 1);
    }
  }

  /** Exclusive or adds each bit modulo 2. */
  lemma XorIsBitwise(a: byte, b: byte, p: nat, j: nat)
    requires IsBit(p, j)
    ensures Xor(a, b) / p % 2 == (a / p % 2 + b / p % 2) % 2
  {
    hide XorBits, Digit;
    XorDigit(a, b, 8, j);
    DigitIs(a, p, j);
    DigitIs(b, p, j);
    DigitIs(Xor(a, b), p, j);
  }

  predicate HasBit(b: byte, p: nat) {
    p > 0 && b / p % 2 == 1
  }

  /** The positions of lane `k` whose byte has the bit `p`. */
  ghost function Ones(file: seq<byte>, off: nat, n: nat, k: nat, p: nat): set<nat> {
    set i: nat | i < n && IsOne(file, off, i, k, p)
  }

  predicate IsOne(file: seq<byte>, off: nat, i: nat, k: nat, p: nat) {
    i % 16 == k && off + i < |file| && HasBit(file[off + i], p)
  }

  lemma OneIs(file: seq<byte>, off: nat, i: nat, k: nat, p: nat)
    ensures IsOne(file, off, i, k, p) <==> i % 16 == k && HasBit(Mapped(file, off + i), p)
  {
    ZeroHasNoBit(p);
  }

  lemma NextOne(file: seq<byte>, off: nat, n: nat, k: nat, p: nat)
    ensures |Ones(file, off, 0, k, p)| == 0
    ensures |Ones(file, off, n + 1, k, p)| ==
      |Ones(file, off, n, k, p)| + if n % 16 == k && HasBit(Mapped(file, off + n), p) then 1 else 0
  {
    hide HasBit, IsOne, Mapped;
    OneIs(file, off, n, k, p);
    var fewer, all := Ones(file, off, n, k, p), Ones(file, off, n + 1, k, p);
    assert Ones(file, off, 0, k, p) == {};
    assert n !in fewer;
    if IsOne(file, off, n, k, p) {
      assert all == fewer + {n};
    } else {
      assert all == fewer;
    }
  }

  lemma {:induction false} LaneIsParity(file: seq<byte>, off: nat, n: nat, k: nat, p: nat, j: nat)
    requires k < 16 && IsBit(p, j)
    ensures HasBit(Lane(file, off, n, k), p) <==> |Ones(file, off, n, k, p)| % 2 == 1
    decreases n
  {
    hide Xor, HasBit, Ones, Mapped, IsBit;
    ZeroHasNoBit(p);
    if n == 0 {
      NextOne(file, off, 0, k, p);
    } else {
      LaneIsParity(file, off, n - 1, k, p, j);
      XorHasBit(Lane(file, off, n - 1, k), Mapped(file, off + n - 1), p, j);
      NextOne(file, off, n - 1, k, p);
    }
  }

  lemma ZeroHasNoBit(p: nat)
    ensures !HasBit(0, p)
  {
  }

  lemma XorHasBit(a: byte, b: byte, p: nat, j: nat)
    requires IsBit(p, j)
    ensures HasBit(Xor(a, b), p) <==> HasBit(a, p) != HasBit(b, p)
  {
    hide Xor;
    XorIsBitwise(a, b, p, j);
  }

  /** What the fallback ID is: each of its bits is the parity of the bits at the positions of the
      same lane, modulo 16, below min(size, 4096) rounded up to 16. */
  lemma HashIsParity(file: seq<byte>, off: nat, size: nat, k: nat, p: nat, j: nat)
    requires k < 16 && IsBit(p, j)
    ensures |LaneHash(file, off, HashedBytes(size))| == 16
    ensures var limit := if size < 4096 then size else 4096;
      var n := if limit % 16 == 0 then limit else limit - limit % 16 + 16;
      HasBit(LaneHash(file, off, HashedBytes(size))[k], p) <==> |Ones(file, off, n, k, p)| % 2 == 1
  {
    hide Lane, HasBit, Ones;
    LaneIsParity(file, off, HashedBytes(size), k, p, j);
  }
}
