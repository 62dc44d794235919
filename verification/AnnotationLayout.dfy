/** The CrashpadInfo layout for any stream directory and any list of annotations, in plain numbers,
    generalising the builder of daemon/tombstone/test/test_minidump_reader.cpp, and reading it back. */
module AnnotationLayout {
  import opened Bytes
  import opened LittleEndianWords
  import opened StreamDirectory
  import opened Annotations
  import opened PythonAnnotations

  // ----- Strings

  /** A MINIDUMP_UTF8_STRING: its length, its bytes, a NUL. */
  function StringBytes(s: seq<byte>): (r: seq<byte>)
    requires |s| < TWO32
    ensures |r| == |s| + 5
  {
    Le32(|s|) + s + [0]
  }

  function StringsBytes(ss: seq<seq<byte>>): seq<byte>
    requires forall s :: s in ss ==> |s| < TWO32
  {
    if ss == [] then [] else StringBytes(ss[0]) + StringsBytes(ss[1..])
  }

  /** Where the strings start when the first one is at `base`. */
  function Rvas(base: nat, ss: seq<seq<byte>>): (r: seq<nat>)
    ensures |r| == |ss|
    decreases |ss|
  {
    if ss == [] then [] else [base] + Rvas(base + |ss[0]| + 5, ss[1..])
  }

  /** `s` lies at `rva`, length first. */
  predicate Placed(buf: seq<byte>, rva: nat, s: seq<byte>) {
    && |s| < TWO32 && rva + 4 + |s| < |buf|
    && buf[rva..rva + 4] == Le32(|s|) && buf[rva + 4..rva + 4 + |s|] == s
  }

  lemma StringPlaced(before: seq<byte>, s: seq<byte>, rest: seq<byte>)
    requires |s| < TWO32
    ensures Placed(before + StringBytes(s) + rest, |before|, s)
  {
    hide Le32;
    var buf, at := before + StringBytes(s) + rest, |before|;
    assert buf[at..at + |s| + 5] == StringBytes(s);
    assert buf[at..at + 4] == StringBytes(s)[..4];
    assert buf[at + 4..at + 4 + |s|] == StringBytes(s)[4..4 + |s|];
  }

  lemma StringsCons(base: nat, ss: seq<seq<byte>>)
    requires (forall s :: s in ss ==> |s| < TWO32) && ss != []
    ensures StringsBytes(ss) == StringBytes(ss[0]) + StringsBytes(ss[1..])
    ensures Rvas(base, ss) == [base] + Rvas(base + |ss[0]| + 5, ss[1..])
  {
    hide StringBytes;
  }

  lemma {:induction false} StringsPlaced(before: seq<byte>, ss: seq<seq<byte>>, k: nat)
    requires (forall s :: s in ss ==> |s| < TWO32) && k < |ss|
    ensures Rvas(|before|, ss)[k] >= |before|
    ensures Placed(before + StringsBytes(ss), Rvas(|before|, ss)[k], ss[k])
    decreases k
  {
    hide StringBytes, StringsBytes, Rvas, Placed;
    StringsCons(|before|, ss);
    var next, rest := before + StringBytes(ss[0]), StringsBytes(ss[1..]);
    assert before + StringsBytes(ss) == next + rest;
    if k == 0 {
      StringPlaced(before, ss[0], rest);
    } else {
      StringsPlaced(next, ss[1..], k - 1);
    }
  }

  lemma PlacedReads(buf: seq<byte>, rva: u32, s: seq<byte>)
    requires rva != 0 && |buf| < TWO32 && Placed(buf, rva, s)
    ensures PyUtf8(buf, rva) == s && PlainString(buf, rva)
  {
    hide Le32, Word;
    ReadOfLe32(buf, rva, |s|);
  }

  // ----- The dump

  /** key0, value0, key1, value1, ... */
  function Texts(es: seq<Entry>): (ss: seq<seq<byte>>)
    ensures |ss| == 2 * |es|
  {
    if es == [] then [] else [es[0].key, es[0].value] + Texts(es[1..])
  }

  lemma {:induction false} TextAt(es: seq<Entry>, i: nat)
    requires i < |es|
    ensures Texts(es)[2 * i] == es[i].key && Texts(es)[2 * i + 1] == es[i].value
  {
    if i > 0 {
      TextAt(es[1..], i - 1);
    }
  }

  function TextsSize(ss: seq<seq<byte>>): nat {
    if ss == [] then 0 else |ss[0]| + 5 + TextsSize(ss[1..])
  }

  /** MinidumpCrashpadInfo comes first and has 52 bytes; the dictionary follows. */
  function DictAt(s: Streams): nat {
    FirstStreamAt(s) + 52
  }

  function StringsAt(s: Streams, es: seq<Entry>): nat {
    DictAt(s) + 4 + 8 * |es|
  }

  /** No other CrashpadInfo stream comes before; the whole file has less than 2^32 bytes. */
  predicate Encodable(s: Streams, es: seq<Entry>) {
    IsFirst(s, 0x4350_0007) && StringsAt(s, es) + TextsSize(Texts(es)) < TWO32
  }

  lemma {:induction false} TextsFit(base: nat, ss: seq<seq<byte>>)
    requires base + TextsSize(ss) < TWO32
    ensures forall s :: s in ss ==> |s| < TWO32
    ensures |StringsBytes(ss)| == TextsSize(ss)
    ensures forall k :: 0 <= k < |ss| ==> 0 <= Rvas(base, ss)[k] < TWO32
    decreases |ss|
  {
    if ss != [] {
      TextsFit(base + |ss[0]| + 5, ss[1..]);
    }
  }

  function RvaWords(s: Streams, es: seq<Entry>): (ws: seq<u32>)
    requires Encodable(s, es)
    ensures ws == Rvas(StringsAt(s, es), Texts(es))
  {
    TextsFit(StringsAt(s, es), Texts(es));
    Rvas(StringsAt(s, es), Texts(es))
  }

  /** Version 1, report and client ID, size and RVA of the annotations. */
  function InfoWords(declared: u32, rva: u32): (ws: seq<u32>)
    ensures |ws| == 13 && ws[0] == 1 && ws[9] == declared && ws[10] == rva
  {
    [1, 0, 0, 0, 0, 0, 0, 0, 0, declared, rva, 0, 0]
  }

  /** The directory entry of CrashpadInfo. */
  function InfoEntry(s: Streams, es: seq<Entry>): DirEntry
    requires Encodable(s, es)
  {
    DirEntry(0x4350_0007, 52, FirstStreamAt(s))
  }

  /** The words up to the dictionary's count. */
  function FrontWords(s: Streams, es: seq<Entry>, declared: u32): (ws: seq<u32>)
    requires Encodable(s, es)
    ensures |ws| == 22 + 3 * StreamCount(s)
  {
    Header(s) + DirWords(Directory(s, InfoEntry(s, es))) + InfoWords(declared, DictAt(s)) + [|es|]
  }

  /** All the words before the strings; `declared` is the size recorded for the dictionary. */
  function Table(s: Streams, es: seq<Entry>, declared: u32): (ws: seq<u32>)
    requires Encodable(s, es)
    ensures |ws| == 22 + 3 * StreamCount(s) + 2 * |es|
  {
    FrontWords(s, es, declared) + RvaWords(s, es)
  }

  function Build(s: Streams, es: seq<Entry>, declared: u32): (buf: seq<byte>)
    requires Encodable(s, es)
    ensures |buf| == StringsAt(s, es) + TextsSize(Texts(es))
  {
    TextsFit(StringsAt(s, es), Texts(es));
    Words(Table(s, es, declared)) + StringsBytes(Texts(es))
  }

  /** The size that the serialiser records: count and entry table. */
  function TrueSize(es: seq<Entry>): nat {
    4 + 8 * |es|
  }

  lemma BuiltWord(s: Streams, es: seq<Entry>, declared: u32, k: nat)
    requires Encodable(s, es) && k < 22 + 3 * StreamCount(s) + 2 * |es|
    ensures ReadU32(Build(s, es, declared), 4 * k) == Table(s, es, declared)[k]
  {
    hide Le32, Word, Table;
    TextsFit(StringsAt(s, es), Texts(es));
    WordAt(Table(s, es, declared), StringsBytes(Texts(es)), k);
  }

  lemma BuiltHeader(s: Streams, es: seq<Entry>, declared: u32)
    requires Encodable(s, es)
    ensures var buf, info := Build(s, es, declared), FirstStreamAt(s);
      && ReadU32(buf, 0) == 0x504D_444D && ReadU32(buf, 8) == StreamCount(s) && ReadU32(buf, 12) == 32
      && ReadU32(buf, info) == 1 && ReadU32(buf, info + 36) == declared && ReadU32(buf, info + 40) == DictAt(s)
      && ReadU32(buf, DictAt(s)) == |es|
  {
    hide Build, ReadU32, DirWords, RvaWords, InfoWords, Rvas, Texts, TextsSize;
    var first := 8 + 3 * StreamCount(s);
    BuiltWord(s, es, declared, 0);
    BuiltWord(s, es, declared, 2);
    BuiltWord(s, es, declared, 3);
    BuiltWord(s, es, declared, first);
    BuiltWord(s, es, declared, first + 9);
    BuiltWord(s, es, declared, first + 10);
    BuiltWord(s, es, declared, first + 13);
  }

  lemma BuiltDirEntry(s: Streams, es: seq<Entry>, declared: u32, k: nat)
    requires Encodable(s, es) && k < StreamCount(s)
    ensures ReadU32(Build(s, es, declared), 32 + 12 * k) == Directory(s, InfoEntry(s, es))[k].kind
    ensures ReadU32(Build(s, es, declared), 40 + 12 * k) == Directory(s, InfoEntry(s, es))[k].rva
  {
    hide Build, ReadU32, DirWords, RvaWords, InfoWords, Directory, Header, Rvas, Texts, TextsSize;
    BuiltWord(s, es, declared, 8 + 3 * k);
    BuiltWord(s, es, declared, 10 + 3 * k);
    DirWordAt(Directory(s, InfoEntry(s, es)), k);
  }

  /** Both readers find the first CrashpadInfo stream wherever it stands. */
  lemma {:induction false} FindsInfo(s: Streams, es: seq<Entry>, declared: u32, k: nat)
    requires Encodable(s, es) && k <= |s.before|
    ensures FindInfo(Build(s, es, declared), 32, StreamCount(s), k) == FirstStreamAt(s)
    ensures PyFindInfo(Build(s, es, declared), 32, StreamCount(s), k) == Some(FirstStreamAt(s))
    decreases |s.before| - k
  {
    hide Build, Word, Rvas, Texts, TextsSize;
    BuiltDirEntry(s, es, declared, k);
    assert DirEntryAt(32, k) == 32 + 12 * k;
    if k < |s.before| {
      assert s.before[k] in s.before;
      FindsInfo(s, es, declared, k + 1);
    }
  }

  /** The two RVAs of entry `i`, and the strings found there. */
  lemma BuiltEntry(s: Streams, es: seq<Entry>, declared: u32, i: nat)
    requires Encodable(s, es) && i < |es|
    ensures var buf := Build(s, es, declared);
      var k, v := ReadU32(buf, DictAt(s) + 4 + 8 * i), ReadU32(buf, DictAt(s) + 8 + 8 * i);
      && PyUtf8(buf, k) == es[i].key && PlainString(buf, k)
      && PyUtf8(buf, v) == es[i].value && PlainString(buf, v)
  {
    hide ReadU32, PyUtf8, PlainString, Build;
    TextAt(es, i);
    BuiltText(s, es, declared, 2 * i);
    BuiltText(s, es, declared, 2 * i + 1);
  }

  lemma BuiltText(s: Streams, es: seq<Entry>, declared: u32, k: nat)
    requires Encodable(s, es) && k < 2 * |es|
    ensures var buf := Build(s, es, declared);
      var rva := ReadU32(buf, DictAt(s) + 4 + 4 * k);
      PyUtf8(buf, rva) == Texts(es)[k] && PlainString(buf, rva)
  {
    hide ReadU32, PyUtf8, PlainString, Placed, Build, Rvas, Texts;
    BuiltRva(s, es, declared, k);
    BuiltString(s, es, declared, k);
    PlacedReads(Build(s, es, declared), Rvas(StringsAt(s, es), Texts(es))[k], Texts(es)[k]);
  }

  lemma TableRva(s: Streams, es: seq<Entry>, declared: u32, k: nat)
    requires Encodable(s, es) && k < 2 * |es|
    ensures Table(s, es, declared)[22 + 3 * StreamCount(s) + k] == Rvas(StringsAt(s, es), Texts(es))[k]
  {
    hide Rvas, Texts, FrontWords, TextsSize;
    var front, rvas := FrontWords(s, es, declared), RvaWords(s, es);
    assert (front + rvas)[|front| + k] == rvas[k];
  }

  lemma BuiltRva(s: Streams, es: seq<Entry>, declared: u32, k: nat)
    requires Encodable(s, es) && k < 2 * |es|
    ensures ReadU32(Build(s, es, declared), DictAt(s) + 4 + 4 * k) == Rvas(StringsAt(s, es), Texts(es))[k]
  {
    hide *;
    BuiltWord(s, es, declared, 22 + 3 * StreamCount(s) + k);
    TableRva(s, es, declared, k);
    RvaPosition(s, k);
  }

  lemma RvaPosition(s: Streams, k: nat)
    ensures DictAt(s) + 4 + 4 * k == 4 * (22 + 3 * StreamCount(s) + k)
  {
    hide StreamCount;
  }

  lemma BuiltString(s: Streams, es: seq<Entry>, declared: u32, k: nat)
    requires Encodable(s, es) && k < 2 * |es|
    ensures 0 < Rvas(StringsAt(s, es), Texts(es))[k] < TWO32
    ensures Placed(Build(s, es, declared), Rvas(StringsAt(s, es), Texts(es))[k], Texts(es)[k])
  {
    hide Words, Placed, Table, StringsBytes, Rvas, Texts, TextsSize;
    var ss, base := Texts(es), StringsAt(s, es);
    TextsFit(base, ss);
    StringsPlaced(Words(Table(s, es, declared)), ss, k);
  }

  lemma NextPyEntry(buf: seq<byte>, dict: u32, count: nat, i: nat)
    requires i < count && dict + 4 + 8 * i + 8 <= |buf|
    ensures PyEntriesFrom(buf, dict, count, i) ==
      [Entry(PyUtf8(buf, ReadU32(buf, dict + 4 + 8 * i)), PyUtf8(buf, ReadU32(buf, dict + 8 + 8 * i)))]
      + PyEntriesFrom(buf, dict, count, i + 1)
  {
    hide Word, PyUtf8;
  }

  /** Entry `i` of the dictionary at `dict` reads `e`. */
  predicate ReadsEntry(buf: seq<byte>, dict: nat, i: nat, e: Entry) {
    && PyUtf8(buf, ReadU32(buf, dict + 4 + 8 * i)) == e.key
    && PyUtf8(buf, ReadU32(buf, dict + 8 + 8 * i)) == e.value
  }

  lemma {:induction false} EntriesAre(buf: seq<byte>, dict: u32, es: seq<Entry>, i: nat)
    requires dict + 4 + 8 * |es| <= |buf| && i <= |es|
    requires forall k :: 0 <= k < |es| ==> ReadsEntry(buf, dict, k, es[k])
    ensures PyEntriesFrom(buf, dict, |es|, i) == es[i..]
    decreases |es| - i
  {
    hide PyUtf8, ReadU32;
    if i < |es| {
      EntriesAre(buf, dict, es, i + 1);
      NextPyEntry(buf, dict, |es|, i);
      assert ReadsEntry(buf, dict, i, es[i]);
      assert es[i..] == [es[i]] + es[i + 1..];
    }
  }

  lemma BuiltEntries(s: Streams, es: seq<Entry>, declared: u32)
    requires Encodable(s, es)
    ensures PyEntriesFrom(Build(s, es, declared), DictAt(s), |es|, 0) == es
  {
    hide Build, PyUtf8, ReadU32, PlainString, PyEntriesFrom, Texts, TextsSize;
    forall k | 0 <= k < |es|
      ensures ReadsEntry(Build(s, es, declared), DictAt(s), k, es[k])
    {
      BuiltEntry(s, es, declared, k);
    }
    EntriesAre(Build(s, es, declared), DictAt(s), es, 0);
    assert es[0..] == es;
  }

  lemma {:induction false} BuiltIsPlain(s: Streams, es: seq<Entry>, declared: u32, i: nat)
    requires Encodable(s, es) && i <= |es|
    ensures PlainDict(Build(s, es, declared), DictAt(s), |es|, i)
    decreases |es| - i
  {
    hide Build, PyUtf8, ReadU32, PlainString;
    if i < |es| {
      BuiltEntry(s, es, declared, i);
      BuiltIsPlain(s, es, declared, i + 1);
    }
  }

  lemma BuiltIndex(s: Streams, es: seq<Entry>, declared: u32)
    requires Encodable(s, es)
    ensures var buf := Build(s, es, declared);
      && InfoRva(buf) == FirstStreamAt(s) && DictRva(buf) == DictAt(s) && DictSize(buf) == declared
      && PyDictRva(buf) == (if declared >= 4 then Some(DictAt(s)) else None) && ReadU32(buf, DictAt(s)) == |es|
      && (HasDict(buf) <==> declared >= 4 && (DictAt(s) + declared) % 0x1_0000_0000 <= |buf|)
  {
    hide Build, Word, FindInfo, PyFindInfo, Texts, TextsSize;
    BuiltHeader(s, es, declared);
    FindsInfo(s, es, declared, 0);
  }

  /** Round trip: whatever annotations are laid out, both readers find them all, in order, and
      their two fields are the values bound last to "abort_message" and "terminate_type". */
  lemma RoundTrip(s: Streams, es: seq<Entry>)
    requires Encodable(s, es)
    ensures var buf := Build(s, es, TrueSize(es));
      var fields := Info(LastValue(es, Ascii("abort_message")), LastValue(es, Ascii("terminate_type")));
      && Entries(buf) == es && PyEntries(buf) == es
      && InfoOf(Entries(buf)) == fields && PyInfo(buf) == fields
      && (forall key :: Get(Bind(PyEntries(buf)), key) == LastValue(es, key))
  {
    hide Build, Texts, TextsSize, LastValue, Get, Bind, Entries, PyEntries;
    DeclaredSize(s, es, TrueSize(es));
    forall key
      ensures Get(Bind(es), key) == LastValue(es, key)
    {
      GetIsLastValue(es, key);
    }
  }

  /** The recorded dictionary size is where the two readers part: from 4 on Python ignores it, the
      daemon reads the entries exactly when the recorded dictionary seems to lie in the file. */
  lemma DeclaredSize(s: Streams, es: seq<Entry>, declared: u32)
    requires Encodable(s, es)
    ensures var buf := Build(s, es, declared);
      && PyEntries(buf) == (if declared >= 4 then es else [])
      && Entries(buf) == if declared >= 4 && (DictAt(s) + declared) % 0x1_0000_0000 <= |buf| then es else []
  {
    hide Build, ReadU32, PyDictRva, HasDict, PyEntriesFrom, EntriesFrom, PlainDict, Texts, TextsSize;
    var buf := Build(s, es, declared);
    BuiltIndex(s, es, declared);
    BuiltEntries(s, es, declared);
    BuiltIsPlain(s, es, declared, 0);
    EntriesAgree(buf, DictAt(s), |es|, 0);
  }

  /** For a dump of this layout the two fields agree if and only if its recorded dictionary is
      too small, seems to lie in the file, or gives neither key a text. */
  lemma FieldsAgreeExactly(s: Streams, es: seq<Entry>, declared: u32)
    requires Encodable(s, es)
    ensures var buf := Build(s, es, declared);
      InfoOf(Entries(buf)) == PyInfo(buf) <==>
        || declared < 4 || (DictAt(s) + declared) % 0x1_0000_0000 <= |buf|
        || (BindsNothing(es, Ascii("abort_message")) && BindsNothing(es, Ascii("terminate_type")))
  {
    hide Build, BindsNothing, LastValue, Bind, Get, Entries, PyEntries, Texts, TextsSize;
    DeclaredSize(s, es, declared);
    GetIsLastValue(PyEntries(Build(s, es, declared)), ABORT_KEY);
    GetIsLastValue(PyEntries(Build(s, es, declared)), TYPE_KEY);
    BindsNothingIsEmpty(es, ABORT_KEY);
    BindsNothingIsEmpty(es, TYPE_KEY);
    NoInfo();
  }

  /** The fields do differ: an abort message "x" in a dictionary recorded as 1000 bytes long. */
  lemma FieldsCanDiffer()
    ensures var s, es := Streams([], []), [Entry(Ascii("abort_message"), Ascii("x"))];
      && Encodable(s, es)
      && InfoOf(Entries(Build(s, es, 1000))) == Info([], [])
      && PyInfo(Build(s, es, 1000)).abortMessage == Ascii("x")
  {
    hide Build, Entries, PyEntries;
    var s, es := Streams([], []), [Entry(ABORT_KEY, Ascii("x"))];
    assert Texts(es[1..]) == [];
    assert Texts(es) == [ABORT_KEY, Ascii("x")];
    assert TextsSize(Texts(es)[1..]) == 6;
    DeclaredSize(s, es, 1000);
    GetIsLastValue(es, ABORT_KEY);
    NoInfo();
  }
}
