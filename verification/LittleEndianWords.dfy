/** Files laid out as 32-bit words. */
module LittleEndianWords {
  import opened Bytes

  function Words(ws: seq<u32>): (r: seq<byte>)
    ensures |r| == 4 * |ws|
  {
    if ws == [] then [] else Le32(ws[0]) + Words(ws[1..])
  }

  lemma {:induction false} WordAt(ws: seq<u32>, after: seq<byte>, k: nat)
    requires k < |ws|
    ensures ReadU32(Words(ws) + after, 4 * k) == ws[k]
    decreases k
  {
    hide Le32, Word;
    var buf := Words(ws) + after;
    if k == 0 {
      assert buf[0..4] == Le32(ws[0]);
      ReadOfLe32(buf, 0, ws[0]);
    } else {
      var tail := Words(ws[1..]) + after;
      assert buf == Le32(ws[0]) + tail;
      WordAt(ws[1..], after, k - 1);
      ReadShifted(Le32(ws[0]), tail, 4 * (k - 1));
    }
  }

  lemma ReadShifted(head: seq<byte>, tail: seq<byte>, off: nat)
    requires off + 4 <= |tail|
    ensures ReadU32(head + tail, |head| + off) == ReadU32(tail, off)
  {
    var at := |head| + off;
    assert (head + tail)[at..at + 4] == tail[off..off + 4];
  }

  lemma {:induction false} BytesAt(ws: seq<u32>, k: nat)
    requires k < |ws|
    ensures Words(ws)[4 * k..4 * k + 4] == Le32(ws[k])
    decreases k
  {
    hide Le32;
    if k > 0 {
      BytesAt(ws[1..], k - 1);
      var tail := Words(ws[1..]);
      assert Words(ws)[4 * k..4 * k + 4] == tail[4 * (k - 1)..4 * (k - 1) + 4];
    }
  }

  lemma {:induction false} WordsUpdate(ws: seq<u32>, j: nat, v: u32)
    requires j < |ws|
    ensures Words(ws[j := v]) == Words(ws)[..4 * j] + Le32(v) + Words(ws)[4 * j + 4..]
    decreases j
  {
    hide Le32;
    if j == 0 {
      assert ws[0 := v][1..] == ws[1..];
    } else {
      assert ws[j := v][1..] == ws[1..][j - 1 := v];
      WordsUpdate(ws[1..], j - 1, v);
      var head, tail := Le32(ws[0]), Words(ws[1..]);
      assert (head + tail)[..4 * j] == head + tail[..4 * (j - 1)];
      assert (head + tail)[4 * j + 4..] == tail[4 * (j - 1) + 4..];
    }
  }
}
