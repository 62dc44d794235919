/** The worker patches a dump before it reads it: patching does not disturb the annotations. */
module PatchThenRead {
  import opened Bytes
  import MinidumpPatcher
  import opened PatcherFrame
  import opened WellFormedDump
  import opened Annotations
  import opened PythonAnnotations

  // ----- What the annotation reader looks at

  /** The length, and the text if it lies in the file. */
  predicate InString(buf: seq<byte>, rva: u32, p: int) {
    var len := ReadU32(buf, rva);
    rva != 0 && In(p, rva, if rva + 4 + len <= |buf| then 4 + len else 4)
  }

  /** The directory entries up to the CrashpadInfo stream's, from entry `i` on. */
  predicate InDirectory(buf: seq<byte>, dirRva: nat, count: nat, i: nat, p: int)
    decreases count - i
  {
    var off := dirRva + i * DIR_ENTRY;
    && i < count && off + DIR_ENTRY <= |buf|
    && (In(p, off, DIR_ENTRY)
        || (ReadU32(buf, off) != CRASHPAD_INFO && InDirectory(buf, dirRva, count, i + 1, p)))
  }

  /** The dictionary's entries and strings, from entry `i` on. */
  predicate InDict(buf: seq<byte>, dictRva: nat, count: nat, i: nat, p: int)
    decreases count - i
  {
    var off := dictRva + 4 + i * DICT_ENTRY;
    && i < count && off + DICT_ENTRY <= |buf|
    && (In(p, off, DICT_ENTRY)
        || InString(buf, ReadU32(buf, off), p) || InString(buf, ReadU32(buf, off + 4), p)
        || InDict(buf, dictRva, count, i + 1, p))
  }

  /** Header, stream directory, CrashpadInfo stream, dictionary and strings, each only if the
      reader gets there. */
  predicate InReader(buf: seq<byte>, p: int) {
    || In(p, 0, HEADER_SIZE)
    || (IsDump(buf) && InDirectory(buf, ReadU32(buf, 12), ReadU32(buf, 8), 0, p))
    || (IsDump(buf) && InfoRva(buf) != 0 && In(p, InfoRva(buf), INFO_SIZE))
    || (HasDict(buf) && In(p, DictRva(buf), 4))
    || (HasDict(buf) && InDict(buf, DictRva(buf), ReadU32(buf, DictRva(buf)), 0, p))
  }

  // ----- Reading depends on nothing else

  lemma Utf8Frame(a: seq<byte>, b: seq<byte>, rva: u32)
    requires |a| == |b| && PlainString(a, rva)
    requires forall p {:trigger b[p]} :: 0 <= p < |a| && InString(a, rva, p) ==> a[p] == b[p]
    ensures ReadUtf8(a, rva) == ReadUtf8(b, rva)
  {
    hide ReadU32;
    if rva != 0 {
      assert AgreeOn(a, b, rva, 4);
      ReadAgree(a, b, rva);
      var len := ReadU32(a, rva);
      if rva + 4 + len <= |a| {
        assert a[rva + 4..rva + 4 + len] == b[rva + 4..rva + 4 + len];
      }
    }
  }

  lemma {:induction false} FindFrame(a: seq<byte>, b: seq<byte>, dirRva: u32, count: u32, i: u32)
    requires |a| == |b| && PlainDirectory(a, dirRva, count, i)
    requires forall p {:trigger b[p]} :: 0 <= p < |a| && InDirectory(a, dirRva, count, i, p) ==> a[p] == b[p]
    ensures FindInfo(a, dirRva, count, i) == FindInfo(b, dirRva, count, i)
    decreases count - i
  {
    hide ReadU32;
    var off := dirRva + i * DIR_ENTRY;
    if i < count && off + DIR_ENTRY <= |a| {
      assert DirEntryAt(dirRva, i) == off;
      ReadAgree(a, b, off);
      ReadAgree(a, b, off + 8);
      if ReadU32(a, off) != CRASHPAD_INFO {
        FindFrame(a, b, dirRva, count, i + 1);
      }
    }
  }

  lemma {:induction false} EntriesFrame(a: seq<byte>, b: seq<byte>, dictRva: u32, count: u32, i: u32)
    requires |a| == |b| && PlainDict(a, dictRva, count, i)
    requires forall p {:trigger b[p]} :: 0 <= p < |a| && InDict(a, dictRva, count, i, p) ==> a[p] == b[p]
    ensures EntriesFrom(a, dictRva, count, i) == EntriesFrom(b, dictRva, count, i)
    decreases count - i
  {
    hide ReadU32, ReadUtf8, PlainString, InString;
    var off := dictRva + 4 + i * DICT_ENTRY;
    if i < count && off + DICT_ENTRY <= |a| {
      assert DictEntry(dictRva, i) == off && Add32(off, 4) == off + 4;
      ReadAgree(a, b, off);
      ReadAgree(a, b, off + 4);
      Utf8Frame(a, b, ReadU32(a, off));
      Utf8Frame(a, b, ReadU32(a, off + 4));
      EntriesFrame(a, b, dictRva, count, i + 1);
    }
  }

  /** Two dumps of one length that agree where the reader looks have the same annotations. */
  lemma ReaderFrame(a: seq<byte>, b: seq<byte>)
    requires |a| == |b| && PlainOffsets(a)
    requires forall p {:trigger b[p]} :: 0 <= p < |a| && InReader(a, p) ==> a[p] == b[p]
    ensures Entries(a) == Entries(b)
  {
    hide ReadU32, PlainDict, PlainDirectory, InDict, InDirectory, EntriesFrom, FindInfo;
    ReadAgree(a, b, 0);
    if IsDump(a) {
      ReadAgree(a, b, 8);
      ReadAgree(a, b, 12);
      FindFrame(a, b, ReadU32(a, 12), ReadU32(a, 8), 0);
      var info := InfoRva(a);
      if info != 0 {
        ReadAgree(a, b, info);
        ReadAgree(a, b, info + DICT_SIZE_OFF);
        ReadAgree(a, b, info + DICT_RVA_OFF);
        if HasDict(a) {
          var dict := DictRva(a);
          ReadAgree(a, b, dict);
          EntriesFrame(a, b, dict, ReadU32(a, dict), 0);
        }
      }
    }
  }

  // ----- The order used by the worker

  /** For any dump, records overlapping or not: if the reader looks at no byte that a patch of
      this run wrote, the annotations are the same before and after. */
  lemma PatchKeepsAnnotations(buf: seq<byte>, lookup: MinidumpPatcher.Path -> MinidumpPatcher.BuildId)
    requires PlainOffsets(buf) && MinidumpPatcher.PatchBuffer(buf, lookup).Done?
    requires forall p :: InReader(buf, p) ==> !SomeTouch(MinidumpPatcher.PatchBuffer(buf, lookup).log, p)
    ensures InfoOf(Entries(MinidumpPatcher.PatchBuffer(buf, lookup).buf)) == InfoOf(Entries(buf))
  {
    hide InReader, MinidumpPatcher.PatchBuffer, Entries, PlainOffsets, SomeTouch;
    PatchFrame(buf, lookup);
    ReaderFrame(buf, MinidumpPatcher.PatchBuffer(buf, lookup).buf);
  }

  /** On a well-formed dump it is enough that header, directory, CrashpadInfo, dictionary and
      strings lie apart from the CodeView records and the DataSize fields. */
  lemma PatchThenReadWellFormed(buf: seq<byte>, lookup: MinidumpPatcher.Path -> MinidumpPatcher.BuildId)
    requires WellFormed(buf) && PlainOffsets(buf)
    requires forall i: nat, p | i < MinidumpPatcher.ModuleTable(buf).count ::
      Written(buf, MinidumpPatcher.ModuleTable(buf), i, p) ==> !InReader(buf, p)
    ensures MinidumpPatcher.PatchBuffer(buf, lookup).Done?
    ensures InfoOf(Entries(MinidumpPatcher.PatchBuffer(buf, lookup).buf)) == InfoOf(Entries(buf))
  {
    hide InReader, MinidumpPatcher.PatchBuffer, Entries, PlainOffsets, Written, MinidumpPatcher.ModuleTable, Settled;
    PatchingIsComplete(buf, lookup);
    var out, t := MinidumpPatcher.PatchBuffer(buf, lookup).buf, MinidumpPatcher.ModuleTable(buf);
    forall p | 0 <= p < |buf| && InReader(buf, p)
      ensures buf[p] == out[p]
    {
      assert !WrittenBefore(buf, t, t.count, p);
    }
    ReaderFrame(buf, out);
  }
}
