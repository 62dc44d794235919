/** One dump with a module and an annotation: a well-formed one, on which patching and reading
    go together, and one whose record leaves the file, on which the daemon's run is undefined. */
module SampleDump {
  import opened Bytes
  import opened LittleEndianWords
  import P = MinidumpPatcher
  import DumpLayout
  import opened WellFormedDump
  import opened Annotations
  import opened PythonAnnotations
  import opened PatchThenRead

  const INFO_AT: u32 := 56
  const DICT_AT: u32 := 100
  const TEXT_AT: u32 := 112
  const MODULES_AT: u32 := 120
  const RECORD_AT: u32 := 124
  const NAME_AT: u32 := 232
  const CV_AT: u32 := 244

  /** Header, two directory entries, MinidumpCrashpadInfo and a dictionary with one entry whose
      key and value are "abcd". */
  function Front(): (ws: seq<u32>)
    ensures |ws| == 30
  {
    [MDMP_SIGNATURE, 0xA793, 2, 32, 0, 0, 0, 0,
     P.MODULE_LIST_STREAM, 112, MODULES_AT,
     CRASHPAD_INFO, 44, INFO_AT,
     1, 0, 0, 0, 0, 0, 0, 0, 0, 12, DICT_AT,
     1, TEXT_AT, TEXT_AT,
     4, 0x6463_6261]
  }

  /** The module count and record, the name "li", and 24 bytes of CodeView. */
  function Back(cvSize: u32, cvRva: u32): (ws: seq<u32>)
    ensures |ws| == 37
  {
    [1,
     0x7F00_0000, 0, 0x1_0000, 0, 0, NAME_AT, 0, 0, 0, 0, 0, 0, 0, 0, 0, 0, 0, 0, 0,
     cvSize, cvRva, 0, 0, 0, 0, 0, 0,
     4, 0x0069_006C, 0,
     0x5344_5352, 0, 0, 0, 0, 0]
  }

  function Index(cvSize: u32, cvRva: u32): (ws: seq<u32>)
    ensures |ws| == 67
  {
    Front() + Back(cvSize, cvRva)
  }

  function Build(cvSize: u32, cvRva: u32): (buf: seq<byte>)
    ensures |buf| == 268
  {
    Words(Index(cvSize, cvRva))
  }

  lemma BuiltWord(cvSize: u32, cvRva: u32, k: nat)
    requires k < 67
    ensures ReadU32(Build(cvSize, cvRva), 4 * k) == Index(cvSize, cvRva)[k]
  {
    hide Index, FromLe;
    var ws := Index(cvSize, cvRva);
    WordAt(ws, [], k);
    assert Words(ws) + [] == Words(ws);
  }

  lemma FrontWords()
    ensures var ws := Front();
      && ws[0] == MDMP_SIGNATURE && ws[2] == 2 && ws[3] == 32
      && ws[8] == P.MODULE_LIST_STREAM && ws[10] == MODULES_AT && ws[11] == CRASHPAD_INFO && ws[13] == INFO_AT
      && ws[14] == 1 && ws[23] == 12 && ws[24] == DICT_AT
      && ws[25] == 1 && ws[26] == TEXT_AT && ws[27] == TEXT_AT && ws[28] == 4
  {
  }

  lemma BackWords(cvSize: u32, cvRva: u32)
    ensures var ws := Back(cvSize, cvRva);
      && ws[0] == 1 && ws[6] == NAME_AT && ws[20] == cvSize && ws[21] == cvRva
      && ws[28] == 4 && ws[29] == 0x0069_006C && ws[31] == 0x5344_5352
  {
  }

  lemma IndexWords(cvSize: u32, cvRva: u32)
    ensures var ws := Index(cvSize, cvRva);
      && ws[0] == MDMP_SIGNATURE && ws[2] == 2 && ws[3] == 32
      && ws[8] == P.MODULE_LIST_STREAM && ws[10] == MODULES_AT && ws[11] == CRASHPAD_INFO && ws[13] == INFO_AT
      && ws[14] == 1 && ws[23] == 12 && ws[24] == DICT_AT
      && ws[25] == 1 && ws[26] == TEXT_AT && ws[27] == TEXT_AT && ws[28] == 4
      && ws[30] == 1 && ws[36] == NAME_AT && ws[50] == cvSize && ws[51] == cvRva
      && ws[58] == 4 && ws[59] == 0x0069_006C && ws[61] == 0x5344_5352
  {
    hide Front, Back;
    FrontWords();
    BackWords(cvSize, cvRva);
  }

  lemma BuiltHeader(cvSize: u32, cvRva: u32)
    ensures var buf := Build(cvSize, cvRva);
      && ReadU32(buf, 0) == MDMP_SIGNATURE && ReadU32(buf, 8) == 2 && ReadU32(buf, 12) == 32
      && ReadU32(buf, 32) == P.MODULE_LIST_STREAM && ReadU32(buf, 40) == MODULES_AT
      && ReadU32(buf, 44) == CRASHPAD_INFO && ReadU32(buf, 52) == INFO_AT
  {
    hide Index, ReadU32, Build;
    IndexWords(cvSize, cvRva);
    BuiltWord(cvSize, cvRva, 0);
    BuiltWord(cvSize, cvRva, 2);
    BuiltWord(cvSize, cvRva, 3);
    BuiltWord(cvSize, cvRva, 8);
    BuiltWord(cvSize, cvRva, 10);
    BuiltWord(cvSize, cvRva, 11);
    BuiltWord(cvSize, cvRva, 13);
  }

  lemma BuiltInfo(cvSize: u32, cvRva: u32)
    ensures var buf := Build(cvSize, cvRva);
      && ReadU32(buf, 56) == 1 && ReadU32(buf, 92) == 12 && ReadU32(buf, 96) == DICT_AT
      && ReadU32(buf, 100) == 1 && ReadU32(buf, 104) == TEXT_AT && ReadU32(buf, 108) == TEXT_AT
      && ReadU32(buf, 112) == 4
  {
    hide Index, ReadU32, Build;
    IndexWords(cvSize, cvRva);
    BuiltWord(cvSize, cvRva, 14);
    BuiltWord(cvSize, cvRva, 23);
    BuiltWord(cvSize, cvRva, 24);
    BuiltWord(cvSize, cvRva, 25);
    BuiltWord(cvSize, cvRva, 26);
    BuiltWord(cvSize, cvRva, 27);
    BuiltWord(cvSize, cvRva, 28);
  }

  lemma BuiltModule(cvSize: u32, cvRva: u32)
    ensures var buf := Build(cvSize, cvRva);
      && ReadU32(buf, 120) == 1 && P.NameRva(buf, RECORD_AT) == NAME_AT
      && P.CvSize(buf, RECORD_AT) == cvSize && P.CvRva(buf, RECORD_AT) == cvRva
      && ReadU32(buf, 232) == 4 && ReadU32(buf, 244) == 0x5344_5352
  {
    hide Index, ReadU32, Build;
    IndexWords(cvSize, cvRva);
    BuiltWord(cvSize, cvRva, 30);
    BuiltWord(cvSize, cvRva, 36);
    BuiltWord(cvSize, cvRva, 50);
    BuiltWord(cvSize, cvRva, 51);
    BuiltWord(cvSize, cvRva, 58);
    BuiltWord(cvSize, cvRva, 61);
  }

  lemma BuiltTable(cvSize: u32, cvRva: u32)
    ensures P.ModuleStreamRva(Build(cvSize, cvRva)) == MODULES_AT
    ensures P.ModuleTable(Build(cvSize, cvRva)) == P.Table(RECORD_AT, 1)
  {
    hide Build, ReadU32;
    BuiltHeader(cvSize, cvRva);
    BuiltModule(cvSize, cvRva);
  }

  lemma BuiltName(cvSize: u32, cvRva: u32)
    ensures P.ModuleName(Build(cvSize, cvRva), NAME_AT) == Some([0x6C, 0x69])
  {
    hide Build, FromLe, Index;
    var buf := Build(cvSize, cvRva);
    IndexWords(cvSize, cvRva);
    BuiltModule(cvSize, cvRva);
    NameBytes(cvSize, cvRva);
    assert P.NameChars(buf, 236, 4, 4) == Some([]);
    assert P.Kept(P.CodeUnit(0x69, 0)) == [0x69] && P.Kept(P.CodeUnit(0x6C, 0)) == [0x6C];
    var last: P.Path, name: P.Path := [0x69], [0x6C, 0x69];
    assert last + [] == last && [0x6C] + last == name;
    assert P.NameChars(buf, 236, 4, 2) == Some(last);
    assert P.NameChars(buf, 236, 4, 0) == Some(name);
    assert ReadU32(buf, NAME_AT) == 4;
  }

  lemma NameBytes(cvSize: u32, cvRva: u32)
    ensures Build(cvSize, cvRva)[236..240] == [0x6C, 0, 0x69, 0]
    ensures var buf := Build(cvSize, cvRva);
      buf[236] == 0x6C && buf[237] == 0 && buf[238] == 0x69 && buf[239] == 0
  {
    hide Index;
    IndexWords(cvSize, cvRva);
    BytesAt(Index(cvSize, cvRva), 59);
    var s := Build(cvSize, cvRva)[236..240];
    assert s == [0x6C, 0, 0x69, 0];
    assert s[0] == 0x6C && s[1] == 0 && s[2] == 0x69 && s[3] == 0;
  }

  // ----- Patching, then reading

  lemma BuiltIsWellFormed()
    ensures WellFormed(Build(24, CV_AT))
  {
    hide Build, ReadU32;
    BuiltHeader(24, CV_AT);
    BuiltModule(24, CV_AT);
    BuiltTable(24, CV_AT);
    assert forall i: nat :: i < 1 ==> P.ModOff(P.Table(RECORD_AT, 1), i) == RECORD_AT;
  }

  lemma BuiltInfoRva()
    ensures InfoRva(Build(24, CV_AT)) == INFO_AT
  {
    hide Build, ReadU32;
    BuiltHeader(24, CV_AT);
    assert FindInfo(Build(24, CV_AT), 32, 2, 1) == INFO_AT;
  }

  lemma BuiltReads()
    ensures PlainOffsets(Build(24, CV_AT)) && HasDict(Build(24, CV_AT)) && |Entries(Build(24, CV_AT))| == 1
    ensures forall p :: InReader(Build(24, CV_AT), p) ==> 0 <= p < MODULES_AT
  {
    hide Build, ReadU32;
    BuiltHeader(24, CV_AT);
    BuiltInfo(24, CV_AT);
    BuiltInfoRva();
    var buf := Build(24, CV_AT);
    assert !PlainDirectory(buf, 32, 2, 1) ==> false;
    assert !PlainDict(buf, DICT_AT, 1, 1) ==> false;
    assert EntriesFrom(buf, DICT_AT, 1, 1) == [];
    assert forall p :: InDirectory(buf, 32, 2, 1, p) ==> In(p, 44, 12);
    assert forall p :: !InDict(buf, DICT_AT, 1, 1, p);
  }

  /** On this dump the module is signed, and the annotation is read as before. */
  lemma PatchedAndRead(id: P.BuildId)
    requires 0 < |id| <= 20
    ensures Patched(Build(24, CV_AT), P.PatchBuffer(Build(24, CV_AT), _ => id), id)
    ensures |Entries(Build(24, CV_AT))| == 1
    ensures InfoOf(Entries(P.PatchBuffer(Build(24, CV_AT), _ => id).buf)) == InfoOf(Entries(Build(24, CV_AT)))
  {
    hide *;
    var buf := Build(24, CV_AT);
    BuiltIsWellFormed();
    BuiltReads();
    BuiltIsPatched(buf, _ => id, id);
    BuiltIsApart();
    PatchThenReadWellFormed(buf, _ => id);
  }

  predicate Patched(buf: seq<byte>, o: P.Outcome, id: seq<byte>) {
    o.Done? && |o.log| == 1 && ReadsBack(buf, o.buf, RECORD_AT, id)
  }

  lemma BuiltIsPatched(buf: seq<byte>, lookup: P.Path -> P.BuildId, id: P.BuildId)
    requires buf == Build(24, CV_AT) && 0 < |id| <= 20 && forall path :: lookup(path) == id
    ensures Patched(buf, P.PatchBuffer(buf, lookup), id)
  {
    hide Build, ReadU32, WellFormed, ReadsBack, P.PatchBuffer, P.ModuleName;
    BuiltIsWellFormed();
    BuiltModule(24, CV_AT);
    BuiltTable(24, CV_AT);
    BuiltName(24, CV_AT);
    QualifyingModulesArePatched(buf, lookup);
    assert P.ModOff(P.Table(RECORD_AT, 1), 0) == RECORD_AT;
    assert Qualifies(buf, lookup, RECORD_AT) && IdOf(buf, lookup, RECORD_AT) == id;
    assert Qualifying(buf, lookup, P.Table(RECORD_AT, 1), 1) == 0;
  }

  lemma BuiltIsApart()
    ensures var buf := Build(24, CV_AT);
      forall i: nat, p | i < P.ModuleTable(buf).count :: Written(buf, P.ModuleTable(buf), i, p) ==> !InReader(buf, p)
  {
    hide Build, ReadU32, InReader;
    BuiltReads();
    BuiltTable(24, CV_AT);
    BuiltModule(24, CV_AT);
    assert P.ModOff(P.Table(RECORD_AT, 1), 0) == RECORD_AT;
  }

  /** No annotations, the other case: the dumps of the patcher's test builder have no CrashpadInfo
      stream, for any name and record, and reading them after patching is covered as well. */
  lemma PatchedWithoutAnnotations(name: seq<byte>, cv: seq<byte>, lookup: P.Path -> P.BuildId)
    requires DumpLayout.Encodable(name, cv)
    ensures var buf := DumpLayout.Build(name, cv);
      && PlainOffsets(buf) && !HasInfo(buf)
      && (forall i: nat, p | i < P.ModuleTable(buf).count ::
            Written(buf, P.ModuleTable(buf), i, p) ==> !InReader(buf, p))
      && P.PatchBuffer(buf, lookup).Done?
      && InfoOf(Entries(P.PatchBuffer(buf, lookup).buf)) == InfoOf(Entries(buf)) == Info([], [])
  {
    hide DumpLayout.Build, ReadU32, P.PatchBuffer, WellFormed, LastValue, EntriesFrom;
    var buf := DumpLayout.Build(name, cv);
    DumpLayout.BuiltFields(name, cv);
    DumpLayout.BuiltTable(name, cv);
    DumpLayout.BuiltIsWellFormed(name, cv);
    assert P.ModOff(P.Table(DumpLayout.MOD_OFF, 1), 0) == DumpLayout.MOD_OFF;
    NoInfoStream(buf);
    forall i: nat, p | i < P.ModuleTable(buf).count && Written(buf, P.ModuleTable(buf), i, p)
      ensures !InReader(buf, p)
    {
    }
    PatchThenReadWellFormed(buf, lookup);
    NoInfo();
  }

  lemma NoInfoStream(buf: seq<byte>)
    requires |buf| >= 44 && ReadU32(buf, 8) == 1 && ReadU32(buf, 12) == 32 && ReadU32(buf, 32) == P.MODULE_LIST_STREAM
    ensures InfoRva(buf) == 0 && PlainDirectory(buf, 32, 1, 0)
    ensures forall p :: InDirectory(buf, 32, 1, 0, p) ==> In(p, 32, 12)
  {
    hide ReadU32;
    assert FindInfo(buf, 32, 1, 1) == 0 && PlainDirectory(buf, 32, 1, 1);
    assert forall p :: !InDirectory(buf, 32, 1, 1, p);
  }

  // ----- Leaving the file

  /** A record at 2^32 - 16 of 32 bytes: the sum that guards it wraps to 16, and the ID is copied
      to where the file is not. */
  lemma RecordCanLeave(id: P.BuildId)
    requires 0 < |id| <= 28
    ensures P.PatchBuffer(Build(0x20, 0xFFFF_FFF0), _ => id) == P.Fault
  {
    hide Build, P.ModuleName, FromLe, P.Run;
    var buf, lookup := Build(0x20, 0xFFFF_FFF0), (_: P.Path) => id;
    BuiltModule(0x20, 0xFFFF_FFF0);
    BuiltTable(0x20, 0xFFFF_FFF0);
    BuiltName(0x20, 0xFFFF_FFF0);
    assert P.ModOff(P.Table(RECORD_AT, 1), 0) == RECORD_AT;
    assert P.Decide(buf, lookup, RECORD_AT).Crash?;
    P.RunStep(buf, lookup, P.Table(RECORD_AT, 1), 0);
  }
}
