/** Minidump headers and stream directories, in plain numbers. */
module StreamDirectory {
  import opened Bytes

  datatype DirEntry = DirEntry(kind: u32, size: u32, rva: u32)

  /** The other streams of a directory, before and after the one of interest. */
  datatype Streams = Streams(before: seq<DirEntry>, after: seq<DirEntry>)

  /** No stream before it is of its kind; those after it may be. */
  predicate IsFirst(s: Streams, kind: u32) {
    forall d :: d in s.before ==> d.kind != kind
  }

  function StreamCount(s: Streams): nat {
    |s.before| + 1 + |s.after|
  }

  /** The first position after header and directory. */
  function FirstStreamAt(s: Streams): nat {
    32 + 12 * StreamCount(s)
  }

  function Header(s: Streams): (ws: seq<u32>)
    requires StreamCount(s) < TWO32
    ensures |ws| == 8
  {
    [0x504D_444D, 0xA793, StreamCount(s), 32, 0, 0, 0, 0]
  }

  function Directory(s: Streams, d: DirEntry): (ds: seq<DirEntry>)
    ensures |ds| == StreamCount(s) && ds[|s.before|] == d
    ensures forall k :: 0 <= k < |s.before| ==> ds[k] == s.before[k]
  {
    s.before + [d] + s.after
  }

  function DirWords(ds: seq<DirEntry>): (ws: seq<u32>)
    ensures |ws| == 3 * |ds|
  {
    if ds == [] then [] else [ds[0].kind, ds[0].size, ds[0].rva] + DirWords(ds[1..])
  }

  lemma {:induction false} DirWordAt(ds: seq<DirEntry>, k: nat)
    requires k < |ds|
    ensures DirWords(ds)[3 * k] == ds[k].kind && DirWords(ds)[3 * k + 2] == ds[k].rva
    decreases k
  {
    if k > 0 {
      DirWordAt(ds[1..], k - 1);
    }
  }
}
