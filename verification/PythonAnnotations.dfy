/** `read_minidump_annotations` of the analysis tool, and where it agrees with the daemon. */
module PythonAnnotations {
  import opened Bytes
  import opened Annotations

  function PyUtf8(data: seq<byte>, rva: nat): seq<byte> {
    if rva == 0 || rva + 4 > |data| then []
    else
      var len := U32At(data, rva);
      if len == 0 || rva + 4 + len > |data| then [] else data[rva + 4..rva + 4 + len]
  }

  /** None is the struct.error of a directory entry beyond the end. */
  function PyFindInfo(data: seq<byte>, dirRva: nat, count: nat, i: nat): Option<nat>
    decreases count - i
  {
    var off := dirRva + i * DIR_ENTRY;
    if i >= count then Some(0)
    else if off + DIR_ENTRY > |data| then None
    else if U32At(data, off) == CRASHPAD_INFO then Some(U32At(data, off + 8))
    else PyFindInfo(data, dirRva, count, i + 1)
  }

  function PyEntriesFrom(data: seq<byte>, dictRva: nat, count: nat, i: nat): seq<Entry>
    decreases count - i
  {
    var off := dictRva + 4 + i * DICT_ENTRY;
    if i >= count || off + DICT_ENTRY > |data| then []
    else
      [Entry(PyUtf8(data, U32At(data, off)), PyUtf8(data, U32At(data, off + 4)))]
      + PyEntriesFrom(data, dictRva, count, i + 1)
  }

  /** The dictionary's position, if every test before it succeeds and nothing is raised. */
  function PyDictRva(data: seq<byte>): Option<nat> {
    if |data| < HEADER_SIZE || U32At(data, 0) != MDMP_SIGNATURE then None
    else
      match PyFindInfo(data, U32At(data, 12), U32At(data, 8), 0)
      case None => None
      case Some(rva) =>
        if rva == 0 || rva + INFO_SIZE > |data| || U32At(data, rva) != 1 then None
        else
          var size, dict := U32At(data, rva + DICT_SIZE_OFF), U32At(data, rva + DICT_RVA_OFF);
          if dict == 0 || size < 4 || dict + 4 > |data| then None else Some(dict)
  }

  /** The assignments that the loop makes to the result dictionary, in order. */
  function PyEntries(data: seq<byte>): seq<Entry> {
    match PyDictRva(data)
    case None => []
    case Some(dict) => PyEntriesFrom(data, dict, ReadU32(data, dict), 0)
  }

  function Bind(es: seq<Entry>): map<seq<byte>, seq<byte>> {
    if es == [] then map[] else Bind(es[..|es| - 1])[es[|es| - 1].key := es[|es| - 1].value]
  }

  method ReadMinidumpAnnotations(data: seq<byte>) returns (result: map<seq<byte>, seq<byte>>)
    ensures result == Bind(PyEntries(data))
  {
    hide U32At, PyUtf8;
    result := map[];
    var dict := PyDictRva(data);
    if dict.None? {
      return;
    }
    var count := ReadU32(data, dict.value);
    ghost var seen: seq<Entry> := [];
    var i := 0;
    while i < count && dict.value + 4 + i * DICT_ENTRY + DICT_ENTRY <= |data|
      invariant i <= count && result == Bind(seen)
      invariant seen + PyEntriesFrom(data, dict.value, count, i) == PyEntriesFrom(data, dict.value, count, 0)
    {
      var off := dict.value + 4 + i * DICT_ENTRY;
      var key, value := PyUtf8(data, U32At(data, off)), PyUtf8(data, U32At(data, off + 4));
      ghost var e := Entry(key, value);
      ghost var rest := PyEntriesFrom(data, dict.value, count, i + 1);
      assert seen + ([e] + rest) == seen + [e] + rest;
      BindNext(seen, e);
      result := result[key := value];
      seen := seen + [e];
      i := i + 1;
    }
    assert seen + [] == seen;
  }

  lemma BindNext(es: seq<Entry>, e: Entry)
    ensures Bind(es + [e]) == Bind(es)[e.key := e.value]
  {
    assert (es + [e])[..|es|] == es;
  }

  /** dict.get(key, "") */
  function Get(m: map<seq<byte>, seq<byte>>, key: seq<byte>): seq<byte> {
    if key in m then m[key] else []
  }

  lemma {:induction false} GetIsLastValue(es: seq<Entry>, key: seq<byte>)
    ensures Get(Bind(es), key) == LastValue(es, key)
    decreases |es|
  {
    if es != [] {
      GetIsLastValue(es[..|es| - 1], key);
    }
  }

  // ----- Agreement

  /** No 32-bit sum that the daemon computes for the string at `rva` wraps. */
  predicate PlainString(buf: seq<byte>, rva: u32) {
    rva != 0 ==> rva + 4 + ReadU32(buf, rva) < TWO32
  }

  /** The same for the directory entries that the daemon looks at, from entry `i` on. */
  ghost predicate PlainDirectory(buf: seq<byte>, dirRva: nat, count: nat, i: nat)
    decreases count - i
  {
    var off := dirRva + i * DIR_ENTRY;
    i < count ==>
      && off + DIR_ENTRY < TWO32
      && (off + DIR_ENTRY <= |buf| && ReadU32(buf, off) != CRASHPAD_INFO ==> PlainDirectory(buf, dirRva, count, i + 1))
  }

  /** The same for the dictionary's entries and strings. */
  ghost predicate PlainDict(buf: seq<byte>, dictRva: nat, count: nat, i: nat)
    decreases count - i
  {
    var off := dictRva + 4 + i * DICT_ENTRY;
    i < count ==>
      && off + DICT_ENTRY < TWO32
      && (off + DICT_ENTRY <= |buf| ==>
            && PlainString(buf, ReadU32(buf, off)) && PlainString(buf, ReadU32(buf, off + 4))
            && PlainDict(buf, dictRva, count, i + 1))
  }

  /** No 32-bit sum that the daemon's reader computes on these bytes wraps: each part counts
      only if the reader gets there. */
  ghost predicate PlainOffsets(buf: seq<byte>) {
    && (IsDump(buf) ==>
          && PlainDirectory(buf, ReadU32(buf, 12), ReadU32(buf, 8), 0)
          && (InfoRva(buf) != 0 ==> InfoRva(buf) + INFO_SIZE < TWO32))
    && (NamesDict(buf) ==> DictRva(buf) + DictSize(buf) < TWO32)
    && (HasDict(buf) ==> PlainDict(buf, DictRva(buf), ReadU32(buf, DictRva(buf)), 0))
  }

  /** A dictionary, if there is one, lies in the file as recorded; only the daemon tests this. */
  predicate DictFits(buf: seq<byte>) {
    NamesDict(buf) ==> DictRva(buf) + DictSize(buf) <= |buf|
  }

  lemma Utf8Agrees(buf: seq<byte>, rva: u32)
    requires PlainString(buf, rva)
    ensures ReadUtf8(buf, rva) == PyUtf8(buf, rva)
  {
    hide Word;
  }

  lemma {:induction false} FindAgrees(buf: seq<byte>, dirRva: u32, count: u32, i: u32)
    requires PlainDirectory(buf, dirRva, count, i)
    ensures FindInfo(buf, dirRva, count, i) ==
      match PyFindInfo(buf, dirRva, count, i) case None => 0 case Some(rva) => rva
    decreases count - i
  {
    hide Word;
    var off := dirRva + i * DIR_ENTRY;
    if i < count && off + DIR_ENTRY <= |buf| && ReadU32(buf, off) != CRASHPAD_INFO {
      FindAgrees(buf, dirRva, count, i + 1);
    }
  }

  lemma {:induction false} EntriesAgree(buf: seq<byte>, dictRva: u32, count: u32, i: u32)
    requires PlainDict(buf, dictRva, count, i)
    ensures EntriesFrom(buf, dictRva, count, i) == PyEntriesFrom(buf, dictRva, count, i)
    decreases count - i
  {
    hide Word, ReadUtf8, PyUtf8, PlainString;
    var off := dictRva + 4 + i * DICT_ENTRY;
    if i < count && off + DICT_ENTRY <= |buf| {
      assert DictEntry(dictRva, i) == off && Add32(off, 4) == off + 4;
      Utf8Agrees(buf, ReadU32(buf, off));
      Utf8Agrees(buf, ReadU32(buf, off + 4));
      EntriesAgree(buf, dictRva, count, i + 1);
    }
  }

  lemma DictAgrees(buf: seq<byte>)
    requires PlainOffsets(buf)
    ensures DictFits(buf) ==> PyDictRva(buf) == if HasDict(buf) then Some(DictRva(buf)) else None
    ensures !DictFits(buf) ==> !HasDict(buf)
  {
    hide Word, PyFindInfo, FindInfo, PlainDict, PlainDirectory;
    if IsDump(buf) {
      FindAgrees(buf, ReadU32(buf, 12), ReadU32(buf, 8), 0);
    }
  }

  /** The two fields as Python's callers get them: dict.get(key, "") */
  function PyInfo(buf: seq<byte>): Info {
    Info(Get(Bind(PyEntries(buf)), ABORT_KEY), Get(Bind(PyEntries(buf)), TYPE_KEY))
  }

  /** On the same bytes the daemon's two fields are what `dict.get(key, "")` gives in Python,
      provided a dictionary lies in the file as recorded; if it does not, they stay empty. */
  lemma ReadersAgree(buf: seq<byte>)
    requires PlainOffsets(buf)
    ensures InfoOf(Entries(buf)) == if DictFits(buf) then PyInfo(buf) else Info([], [])
  {
    hide ReadU32, HasDict, PyDictRva, LastValue, Get, Bind, EntriesFrom, PyEntriesFrom, DictFits, PlainDict;
    DictAgrees(buf);
    if DictFits(buf) {
      if HasDict(buf) {
        EntriesAgree(buf, DictRva(buf), ReadU32(buf, DictRva(buf)), 0);
      }
      GetIsLastValue(PyEntries(buf), ABORT_KEY);
      GetIsLastValue(PyEntries(buf), TYPE_KEY);
    } else {
      NoInfo();
    }
  }

  /** No entry for `key`, or the last one has an empty value. */
  predicate BindsNothing(es: seq<Entry>, key: seq<byte>) {
    forall i :: 0 <= i < |es| && es[i].key == key && es[i].value != [] ==>
      exists j :: i < j < |es| && es[j].key == key
  }

  lemma {:induction false} BindsNothingIsEmpty(es: seq<Entry>, key: seq<byte>)
    ensures BindsNothing(es, key) <==> LastValue(es, key) == []
    decreases |es|
  {
    if es != [] {
      var init, last := es[..|es| - 1], |es| - 1;
      if es[last].key == key {
        assert es[last].value == [] ==> BindsNothing(es, key) by {
          forall i | 0 <= i < |es| && es[i].key == key && es[i].value != []
            ensures es[last].value == [] ==> exists j :: i < j < |es| && es[j].key == key
          {
            assert es[last].value == [] ==> i < last;
          }
        }
      } else {
        BindsNothingIsEmpty(init, key);
        LastOther(es, key);
      }
    }
  }

  lemma LastOther(es: seq<Entry>, key: seq<byte>)
    requires es != [] && es[|es| - 1].key != key
    ensures BindsNothing(es, key) <==> BindsNothing(es[..|es| - 1], key)
  {
    var init := es[..|es| - 1];
    if BindsNothing(es, key) {
      forall i | 0 <= i < |init| && init[i].key == key && init[i].value != []
        ensures exists j :: i < j < |init| && init[j].key == key
      {
        assert es[i] == init[i];
        var j :| i < j < |es| && es[j].key == key;
        assert init[j] == es[j];
      }
    }
    if BindsNothing(init, key) {
      forall i | 0 <= i < |es| && es[i].key == key && es[i].value != []
        ensures exists j :: i < j < |es| && es[j].key == key
      {
        assert init[i] == es[i];
        var j :| i < j < |init| && init[j].key == key;
        assert es[j] == init[j];
      }
    }
  }

  /** Exactly when the daemon's fields are Python's: a dictionary lies in the file as recorded,
      or the entries found at its place give neither key a text. */
  lemma ReadersAgreeExactly(buf: seq<byte>)
    requires PlainOffsets(buf)
    ensures InfoOf(Entries(buf)) == PyInfo(buf) <==>
      DictFits(buf) || (BindsNothing(PyEntries(buf), ABORT_KEY) && BindsNothing(PyEntries(buf), TYPE_KEY))
  {
    hide ReadU32, PyEntries, Entries, DictFits, PlainOffsets, BindsNothing, LastValue, Get, Bind;
    var es := PyEntries(buf);
    ReadersAgree(buf);
    GetIsLastValue(es, ABORT_KEY);
    GetIsLastValue(es, TYPE_KEY);
    BindsNothingIsEmpty(es, ABORT_KEY);
    BindsNothingIsEmpty(es, TYPE_KEY);
  }
}
