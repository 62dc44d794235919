/** One-module dumps as the builder of daemon/test/test_minidump_patcher.cpp lays them out, for
    any name and any CodeView record: they are well-formed, and patching them reads back. */
module DumpLayout {
  import opened Bytes
  import opened LittleEndianWords
  import opened MinidumpPatcher
  import opened WellFormedDump
  import PatcherFrame
  import opened PythonPatcher

  const STREAM_RVA: u32 := 44
  const MOD_OFF: u32 := 48
  const NAME_AT: u32 := 156

  /** ASCII without NUL, as UTF-16LE. */
  predicate IsName(name: seq<byte>) {
    |name| > 0 && forall c :: c in name ==> 0 < c < 128
  }

  function Utf16(name: seq<byte>): (r: seq<byte>)
    ensures |r| == 2 * |name|
    ensures forall k :: 0 <= k < |name| ==> r[2 * k] == name[k] && r[2 * k + 1] == 0
  {
    seq(2 * |name|, i requires 0 <= i < 2 * |name| => if i % 2 == 0 then name[i / 2] else 0)
  }

  function CvAt(name: seq<byte>): nat {
    NAME_AT + 4 + 2 * |name| + 2
  }

  predicate Encodable(name: seq<byte>, cv: seq<byte>) {
    IsName(name) && CvAt(name) + |cv| < TWO32
  }

  /** Header, directory entry, module count and the 27 words of the module record. */
  function Index(cvAt: u32, cvSize: u32): (ws: seq<u32>)
    ensures |ws| == 39
  {
    [MDMP_SIGNATURE, 0xA793, 1, 32, 0, 0, 0, 0,
     MODULE_LIST_STREAM, 112, STREAM_RVA,
     1,
     0x7F00_0000, 0, 0x1_0000, 0, 0, NAME_AT, 0, 0, 0, 0, 0, 0, 0, 0, 0, 0, 0, 0, 0,
     cvSize, cvAt, 0, 0, 0, 0, 0, 0]
  }

  function Build(name: seq<byte>, cv: seq<byte>): (buf: seq<byte>)
    requires Encodable(name, cv)
    ensures |buf| == CvAt(name) + |cv|
  {
    Words(Index(CvAt(name), |cv|)) + (Le32(2 * |name|) + Utf16(name) + [0, 0] + cv)
  }

  lemma BuiltWord(name: seq<byte>, cv: seq<byte>, k: nat)
    requires Encodable(name, cv) && k < 39
    ensures ReadU32(Build(name, cv), 4 * k) == Index(CvAt(name), |cv|)[k]
  {
    hide Index, Le32, Utf16, Word;
    WordAt(Index(CvAt(name), |cv|), Le32(2 * |name|) + Utf16(name) + [0, 0] + cv, k);
  }

  lemma IndexWords(cvAt: u32, cvSize: u32)
    ensures var ws := Index(cvAt, cvSize);
      && ws[0] == MDMP_SIGNATURE && ws[2] == 1 && ws[3] == 32
      && ws[8] == MODULE_LIST_STREAM && ws[10] == STREAM_RVA && ws[11] == 1
      && ws[17] == NAME_AT && ws[31] == cvSize && ws[32] == cvAt
  {
  }

  lemma BuiltFields(name: seq<byte>, cv: seq<byte>)
    requires Encodable(name, cv)
    ensures var buf := Build(name, cv);
      && IsMinidump(buf) && ReadU32(buf, 8) == 1 && ReadU32(buf, 12) == 32
      && ReadU32(buf, 32) == MODULE_LIST_STREAM && ReadU32(buf, 40) == STREAM_RVA && ReadU32(buf, 44) == 1
      && NameRva(buf, MOD_OFF) == NAME_AT && CvSize(buf, MOD_OFF) == |cv| && CvRva(buf, MOD_OFF) == CvAt(name)
  {
    hide Build, ReadU32, Index;
    IndexWords(CvAt(name), |cv|);
    BuiltWord(name, cv, 0);
    BuiltWord(name, cv, 2);
    BuiltWord(name, cv, 3);
    BuiltWord(name, cv, 8);
    BuiltWord(name, cv, 10);
    BuiltWord(name, cv, 11);
    BuiltWord(name, cv, 17);
    BuiltWord(name, cv, 31);
    BuiltWord(name, cv, 32);
  }

  lemma BuiltText(name: seq<byte>, cv: seq<byte>)
    requires Encodable(name, cv)
    ensures var buf := Build(name, cv);
      && ReadU32(buf, NAME_AT) == 2 * |name|
      && (forall k :: 0 <= k < |name| ==> buf[NAME_AT + 4 + 2 * k] == name[k] && buf[NAME_AT + 5 + 2 * k] == 0)
      && buf[CvAt(name)..] == cv
  {
    hide Index, Le32, Word;
    var buf := Build(name, cv);
    assert buf[NAME_AT..NAME_AT + 4] == Le32(2 * |name|);
    ReadOfLe32(buf, NAME_AT, 2 * |name|);
    var text := Utf16(name);
    assert buf[NAME_AT + 4..NAME_AT + 4 + 2 * |name|] == text;
    forall k | 0 <= k < |name|
      ensures buf[NAME_AT + 4 + 2 * k] == name[k] && buf[NAME_AT + 5 + 2 * k] == 0
    {
      assert buf[NAME_AT + 4..NAME_AT + 4 + 2 * |name|][2 * k] == buf[NAME_AT + 4 + 2 * k];
      assert buf[NAME_AT + 4..NAME_AT + 4 + 2 * |name|][2 * k + 1] == buf[NAME_AT + 5 + 2 * k];
    }
  }

  lemma BuiltTable(name: seq<byte>, cv: seq<byte>)
    requires Encodable(name, cv)
    ensures ModuleStreamRva(Build(name, cv)) == STREAM_RVA
    ensures ModuleTable(Build(name, cv)) == Table(MOD_OFF, 1)
  {
    hide Build, ReadU32;
    BuiltFields(name, cv);
  }

  lemma BuiltName(name: seq<byte>, cv: seq<byte>)
    requires Encodable(name, cv)
    ensures AsciiName(Build(name, cv), NAME_AT)
    ensures ModuleName(Build(name, cv), NAME_AT) == Some(name)
  {
    hide Build, ReadU32, NameChars;
    var buf := Build(name, cv);
    BuiltText(name, cv);
    forall k | 0 <= k < |name|
      ensures 0 < CodeUnit(buf[NAME_AT + 4 + 2 * k], buf[NAME_AT + 5 + 2 * k]) < 128
    {
      assert name[k] in name;
    }
    BuiltChars(buf, name, 0);
  }

  lemma {:induction false} BuiltChars(buf: seq<byte>, name: seq<byte>, k: nat)
    requires IsName(name) && k <= |name| && NAME_AT + 4 + 2 * |name| <= |buf| && NAME_AT + 4 + 2 * |name| < TWO32
    requires forall j :: 0 <= j < |name| ==> buf[NAME_AT + 4 + 2 * j] == name[j] && buf[NAME_AT + 5 + 2 * j] == 0
    ensures NameChars(buf, NAME_AT + 4, 2 * |name|, 2 * k) == Some(name[k..])
    decreases |name| - k
  {
    if k < |name| {
      BuiltChars(buf, name, k + 1);
      assert name[k] in name;
      assert Kept(CodeUnit(buf[NAME_AT + 4 + 2 * k], buf[NAME_AT + 5 + 2 * k])) == [name[k] as nat];
      assert name[k..] == [name[k]] + name[k + 1..];
    }
  }

  /** The builder's dumps are well-formed, whatever the name and the record. */
  lemma BuiltIsWellFormed(name: seq<byte>, cv: seq<byte>)
    requires Encodable(name, cv)
    ensures WellFormed(Build(name, cv)) && AsciiNames(Build(name, cv))
  {
    hide Build, ReadU32, AsciiName;
    var buf := Build(name, cv);
    BuiltFields(name, cv);
    BuiltTable(name, cv);
    BuiltText(name, cv);
    BuiltName(name, cv);
    assert ModOff(Table(MOD_OFF, 1), 0) == MOD_OFF;
    assert forall i: nat :: i < 1 ==> ModOff(Table(MOD_OFF, 1), i) == MOD_OFF;
  }

  /** `out` is the dump with the record's head replaced by signature and ID. */
  predicate HoldsId(name: seq<byte>, cv: seq<byte>, id: BuildId, out: seq<byte>) {
    && CvAt(name) <= |out| && 4 + |id| <= |cv|
    && CvSize(out, MOD_OFF) == 4 + |id|
    && out[CvAt(name)..] == Le32(BPEL_SIGNATURE) + id + cv[4 + |id|..]
  }

  predicate PatchedOnce(o: Outcome, name: seq<byte>, cv: seq<byte>, id: BuildId) {
    o.Done? && |o.log| == 1 && HoldsId(name, cv, id, o.buf)
  }

  /** End to end on such a dump: both implementations sign a record that is not yet BpEL, has at
      least 20 bytes and fits the ID, and the record then holds signature, ID and its old tail. */
  lemma BuiltIsPatched(name: seq<byte>, cv: seq<byte>, lookup: Path -> BuildId)
    requires Encodable(name, cv) && |cv| >= 20 && U32At(cv, 0) != BPEL_SIGNATURE
    requires lookup(name) != [] && 4 + |lookup(name)| <= |cv|
    ensures PatchedOnce(PatchBuffer(Build(name, cv), lookup), name, cv, lookup(name))
    ensures PyPatch(Build(name, cv), lookup) == Finished(PatchBuffer(Build(name, cv), lookup).buf, 1)
  {
    hide Build, ReadU32, WellFormed, AsciiNames, Apply, PyDecide, Decide, HoldsId, PyPatch, ShortRecord, Run, Fits;
    var buf, t := Build(name, cv), Table(MOD_OFF, 1);
    var w := Patch(MOD_OFF, CvAt(name), lookup(name));
    BuiltIsWellFormed(name, cv);
    BuiltTable(name, cv);
    BuiltDecision(name, cv, lookup);
    BuiltApplied(name, cv, lookup(name));
    assert ModOff(t, 0) == MOD_OFF;
    RunStep(buf, lookup, t, 0);
    RunEnd(Apply(buf, w), lookup, t, 1);
    BuiltNotShort(name, cv, lookup);
    ImplementationsAgree(buf, lookup);
  }

  predicate Differ(tool: PyOutcome, daemon: Outcome) {
    tool.Finished? && daemon.Done? && tool.data != daemon.buf
  }

  /** The difference is real: a record of fewer than 20 bytes that the ID fits is signed by the
      tool and left alone by the daemon. */
  lemma BuiltShortDiffers(name: seq<byte>, cv: seq<byte>, lookup: Path -> BuildId)
    requires Encodable(name, cv) && 4 <= |cv| < 20 && U32At(cv, 0) != BPEL_SIGNATURE
    requires lookup(name) != [] && 4 + |lookup(name)| <= |cv|
    ensures Differ(PyPatch(Build(name, cv), lookup), PatchBuffer(Build(name, cv), lookup))
  {
    hide Build, FromLe, ModuleName, WellFormed, AsciiNames, PyPatch, PatchBuffer;
    var buf := Build(name, cv);
    BuiltIsWellFormed(name, cv);
    BuiltFields(name, cv);
    BuiltTable(name, cv);
    BuiltName(name, cv);
    BuiltText(name, cv);
    var cvAt := CvAt(name);
    assert buf[cvAt..cvAt + 4] == cv[0..4];
    assert ModOff(Table(MOD_OFF, 1), 0) == MOD_OFF;
    ImplementationsAgree(buf, lookup);
  }

  lemma BuiltDecision(name: seq<byte>, cv: seq<byte>, lookup: Path -> BuildId)
    requires Encodable(name, cv) && |cv| >= 20 && U32At(cv, 0) != BPEL_SIGNATURE
    requires lookup(name) != [] && 4 + |lookup(name)| <= |cv|
    ensures Decide(Build(name, cv), lookup, MOD_OFF) == Write(Patch(MOD_OFF, CvAt(name), lookup(name)))
  {
    hide Build, Word, ModuleName;
    var buf := Build(name, cv);
    BuiltFields(name, cv);
    BuiltText(name, cv);
    BuiltName(name, cv);
    var cvAt := CvAt(name);
    assert buf[cvAt..cvAt + 4] == cv[0..4];
  }

  lemma BuiltNotShort(name: seq<byte>, cv: seq<byte>, lookup: Path -> BuildId)
    requires Encodable(name, cv) && |cv| >= 20
    ensures !ShortRecord(Build(name, cv), lookup, MOD_OFF)
  {
    hide Build, ReadU32, PyDecide;
    BuiltFields(name, cv);
  }

  lemma BuiltApplied(name: seq<byte>, cv: seq<byte>, id: BuildId)
    requires Encodable(name, cv) && 4 + |id| <= |cv|
    ensures Fits(Build(name, cv), Patch(MOD_OFF, CvAt(name), id))
    ensures HoldsId(name, cv, id, Apply(Build(name, cv), Patch(MOD_OFF, CvAt(name), id)))
  {
    hide Le32, Build, ReadU32;
    var buf, w := Build(name, cv), Patch(MOD_OFF, CvAt(name), id);
    BuiltText(name, cv);
    PatcherFrame.ApplyReadsBack(buf, w);
    TailOfApplied(buf, w);
  }

  lemma TailOfApplied(buf: seq<byte>, w: Patch)
    requires Fits(buf, w) && w.modOff + CV_SIZE_OFF + 4 <= w.cvRva
    ensures Apply(buf, w)[w.cvRva..] == Le32(BPEL_SIGNATURE) + w.id + buf[w.cvRva..][4 + |w.id|..]
  {
    hide Le32;
  }
}
