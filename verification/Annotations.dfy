/** The Crashpad annotation readers of daemon/tombstone/minidump_reader.cpp (32-bit offsets)
    and tools/crashomon_tools/analyze/symbolizer.py (unbounded offsets). */
module Annotations {
  import opened Bytes

  const CRASHPAD_INFO: u32 := 0x43500007
  const HEADER_SIZE: u32 := 32
  const DIR_ENTRY: u32 := 12
  const INFO_SIZE: u32 := 44
  const DICT_SIZE_OFF: u32 := 36
  const DICT_RVA_OFF: u32 := 40
  const DICT_ENTRY: u32 := 8

  const ABORT_KEY: seq<byte> := Ascii("abort_message")
  const TYPE_KEY: seq<byte> := Ascii("terminate_type")

  datatype Entry = Entry(key: seq<byte>, value: seq<byte>)

  /** The two fields that the reader fills; both start empty. */
  datatype Info = Info(abortMessage: seq<byte>, terminateType: seq<byte>)

  /** The product of two `uint32_t` values: it wraps modulo 2^32. */
  function Mul32(a: u32, b: u32): u32 {
    if a * b < TWO32 then a * b else a * b % TWO32
  }

  /** std::string(buf, pos, len) stops at the end of the buffer. */
  function Substring(buf: seq<byte>, pos: nat, len: nat): seq<byte>
    requires pos <= |buf|
  {
    if pos + len <= |buf| then buf[pos..pos + len] else buf[pos..]
  }

  function ReadUtf8(buf: seq<byte>, rva: u32): seq<byte> {
    if rva == 0 || Add32(rva, 4) > |buf| then []
    else
      var len := ReadU32(buf, rva);
      if len == 0 || Add32(Add32(rva, 4), len) > |buf| then [] else Substring(buf, Add32(rva, 4), len)
  }

  function DirEntryAt(dirRva: u32, i: u32): u32 {
    Add32(dirRva, Mul32(i, DIR_ENTRY))
  }

  function FindInfo(buf: seq<byte>, dirRva: u32, count: u32, i: u32): u32
    decreases count - i
  {
    if i >= count || Add32(DirEntryAt(dirRva, i), DIR_ENTRY) > |buf| then 0
    else if ReadU32(buf, DirEntryAt(dirRva, i)) == CRASHPAD_INFO then ReadU32(buf, Add32(DirEntryAt(dirRva, i), 8))
    else FindInfo(buf, dirRva, count, i + 1)
  }

  function InfoRva(buf: seq<byte>): u32 {
    FindInfo(buf, ReadU32(buf, 12), ReadU32(buf, 8), 0)
  }

  function DictSize(buf: seq<byte>): u32 { ReadU32(buf, Add32(InfoRva(buf), DICT_SIZE_OFF)) }

  function DictRva(buf: seq<byte>): u32 { ReadU32(buf, Add32(InfoRva(buf), DICT_RVA_OFF)) }

  predicate IsDump(buf: seq<byte>) {
    |buf| >= HEADER_SIZE && ReadU32(buf, 0) == MDMP_SIGNATURE
  }

  /** A CrashpadInfo stream of version 1 lies in the file. */
  predicate HasInfo(buf: seq<byte>) {
    IsDump(buf) && InfoRva(buf) != 0 && Add32(InfoRva(buf), INFO_SIZE) <= |buf| && ReadU32(buf, InfoRva(buf)) == 1
  }

  /** It names a dictionary that can hold its count. */
  predicate NamesDict(buf: seq<byte>) {
    HasInfo(buf) && DictRva(buf) != 0 && DictSize(buf) >= 4
  }

  /** Every test before the dictionary is read. */
  predicate HasDict(buf: seq<byte>) {
    NamesDict(buf) && Add32(DictRva(buf), DictSize(buf)) <= |buf|
  }

  /** The tests in numbers, sums being those of `uint32_t`. */
  lemma HasDictIs(buf: seq<byte>)
    ensures HasDict(buf) <==>
      && |buf| >= 32 && buf[..4] == Ascii("MDMP")
      && var info := InfoRva(buf);
         && info != 0 && (info + 44) % 0x1_0000_0000 <= |buf| && ReadU32(buf, info) == 1
         && var size, dict := ReadU32(buf, (info + 36) % 0x1_0000_0000), ReadU32(buf, (info + 40) % 0x1_0000_0000);
            dict != 0 && size >= 4 && (dict + size) % 0x1_0000_0000 <= |buf|
  {
    hide ReadU32, InfoRva;
    if |buf| >= 4 {
      MagicIs(buf);
    }
  }

  function DictEntry(dictRva: u32, i: u32): u32 {
    Add32(Add32(dictRva, 4), Mul32(i, DICT_ENTRY))
  }

  function EntryAt(buf: seq<byte>, off: u32): Entry {
    Entry(ReadUtf8(buf, ReadU32(buf, off)), ReadUtf8(buf, ReadU32(buf, Add32(off, 4))))
  }

  /** The entries that the loop reads from index `i` on. */
  function EntriesFrom(buf: seq<byte>, dictRva: u32, count: u32, i: u32): seq<Entry>
    decreases count - i
  {
    var off := DictEntry(dictRva, i);
    if i >= count || Add32(off, DICT_ENTRY) > |buf| then []
    else [EntryAt(buf, off)] + EntriesFrom(buf, dictRva, count, i + 1)
  }

  function Entries(buf: seq<byte>): seq<Entry> {
    if HasDict(buf) then EntriesFrom(buf, DictRva(buf), ReadU32(buf, DictRva(buf)), 0) else []
  }

  /** The value bound last to `key`; empty when it is not bound. */
  function LastValue(es: seq<Entry>, key: seq<byte>): seq<byte> {
    if es == [] then []
    else if es[|es| - 1].key == key then es[|es| - 1].value
    else LastValue(es[..|es| - 1], key)
  }

  function InfoOf(es: seq<Entry>): Info {
    Info(LastValue(es, ABORT_KEY), LastValue(es, TYPE_KEY))
  }

  /** The daemon's reader: total on arbitrary bytes, each field gets the last value bound. */
  method ExtractCrashpadAnnotations(buf: seq<byte>) returns (info: Info)
    ensures info == InfoOf(Entries(buf))
  {
    hide ReadU32, ReadUtf8, Add32, Mul32;
    info := Info([], []);
    if |buf| < HEADER_SIZE || ReadU32(buf, 0) != MDMP_SIGNATURE {
      return;
    }
    var rva := FindInfoStream(buf);
    if rva == 0 || Add32(rva, INFO_SIZE) > |buf| || ReadU32(buf, rva) != 1 {
      return;
    }
    var dictSize := ReadU32(buf, Add32(rva, DICT_SIZE_OFF));
    var dictRva := ReadU32(buf, Add32(rva, DICT_RVA_OFF));
    if dictRva == 0 || dictSize < 4 || Add32(dictRva, dictSize) > |buf| {
      return;
    }
    info := ReadDict(buf, dictRva);
  }

  method FindInfoStream(buf: seq<byte>) returns (rva: u32)
    ensures rva == InfoRva(buf)
  {
    hide ReadU32, Add32, Mul32;
    var count, dirRva := ReadU32(buf, 8), ReadU32(buf, 12);
    var i: u32 := 0;
    while i < count
      invariant FindInfo(buf, dirRva, count, i) == InfoRva(buf)
    {
      var entry := DirEntryAt(dirRva, i);
      if Add32(entry, DIR_ENTRY) > |buf| {
        return 0;
      }
      if ReadU32(buf, entry) == CRASHPAD_INFO {
        return ReadU32(buf, Add32(entry, 8));
      }
      i := i + 1;
    }
    return 0;
  }

  method ReadDict(buf: seq<byte>, dictRva: u32) returns (info: Info)
    ensures info == InfoOf(EntriesFrom(buf, dictRva, ReadU32(buf, dictRva), 0))
  {
    hide ReadU32, ReadUtf8, Add32, Mul32, InfoOf;
    var count := ReadU32(buf, dictRva);
    info := Info([], []);
    ghost var seen: seq<Entry> := [];
    NoInfo();
    var i: u32 := 0;
    while i < count
      invariant i <= count && info == InfoOf(seen)
      invariant seen + EntriesFrom(buf, dictRva, count, i) == EntriesFrom(buf, dictRva, count, 0)
    {
      var off := DictEntry(dictRva, i);
      if Add32(off, DICT_ENTRY) > |buf| {
        break;
      }
      var e := EntryAt(buf, off);
      NextInfo(seen, e);
      ghost var rest := EntriesFrom(buf, dictRva, count, i + 1);
      assert seen + ([e] + rest) == seen + [e] + rest;
      seen := seen + [e];
      if e.key == ABORT_KEY {
        info := info.(abortMessage := e.value);
      } else if e.key == TYPE_KEY {
        info := info.(terminateType := e.value);
      }
      i := i + 1;
    }
    assert seen + [] == seen;
  }

  lemma NoInfo()
    ensures InfoOf([]) == Info([], [])
  {
  }

  lemma NextInfo(es: seq<Entry>, e: Entry)
    ensures InfoOf(es + [e]) ==
      if e.key == ABORT_KEY then InfoOf(es).(abortMessage := e.value)
      else if e.key == TYPE_KEY then InfoOf(es).(terminateType := e.value)
      else InfoOf(es)
  {
    assert |ABORT_KEY| != |TYPE_KEY|;
    assert (es + [e])[..|es|] == es;
  }
}
