/** Dumps with any stream directory and any list of modules, as the minidump format lays them out,
    in plain numbers: patching such a dump gives the dump of the patched modules. */
module ModuleListLayout {
  import opened Bytes
  import opened LittleEndianWords
  import opened StreamDirectory
  import opened MinidumpPatcher
  import opened PythonPatcher

  type u16 = x: int | 0 <= x < 0x1_0000

  /** One MDRawModule and what it points to. The words before, between and after the three fields
      that matter are arbitrary; an empty `cv` stands for RVA 0. */
  datatype Module = Module(
    before: seq<u32>,
    name: seq<u16>,
    between: seq<u32>,
    size: u32,                   // the recorded DataSize
    cv: seq<byte>,
    after: seq<u32>)

  predicate IsModule(m: Module) {
    && |m.before| == 5 && |m.between| == 13 && |m.after| == 6
    && (m.cv == [] || m.size <= |m.cv|)
  }

  // ----- The layout

  function Utf16(name: seq<u16>): (r: seq<byte>)
    ensures |r| == 2 * |name|
  {
    if name == [] then [] else Le16(name[0]) + Utf16(name[1..])
  }

  /** The name with its length in bytes and its terminator, then the CodeView record. */
  function Piece(m: Module): (r: seq<byte>)
    requires |m.name| < 0x8000_0000
    ensures |r| == PieceSize(m)
  {
    Le32(2 * |m.name|) + Utf16(m.name) + [0, 0] + m.cv
  }

  function PieceSize(m: Module): nat {
    6 + 2 * |m.name| + |m.cv|
  }

  predicate ShortNames(ms: seq<Module>) {
    forall m :: m in ms ==> |m.name| < 0x8000_0000
  }

  function Pieces(ms: seq<Module>): (r: seq<byte>)
    requires ShortNames(ms)
    ensures |r| == PiecesSize(ms)
  {
    if ms == [] then [] else Piece(ms[0]) + Pieces(ms[1..])
  }

  function PiecesSize(ms: seq<Module>): nat {
    if ms == [] then 0 else PieceSize(ms[0]) + PiecesSize(ms[1..])
  }

  /** The 27 words of a record whose piece is at `at`. */
  function Record(m: Module, at: nat): (ws: seq<u32>)
    requires IsModule(m) && at + PieceSize(m) < TWO32
    ensures |ws| == 27 && ws[5] == at && ws[19] == m.size
    ensures ws[20] == if m.cv == [] then 0 else at + 6 + 2 * |m.name|
  {
    m.before + [at] + m.between + [m.size, if m.cv == [] then 0 else at + 6 + 2 * |m.name|] + m.after
  }

  function Records(ms: seq<Module>, at: nat): (ws: seq<u32>)
    requires (forall m :: m in ms ==> IsModule(m)) && at + PiecesSize(ms) < TWO32
    ensures |ws| == 27 * |ms|
    decreases |ms|
  {
    if ms == [] then [] else Record(ms[0], at) + Records(ms[1..], at + PieceSize(ms[0]))
  }

  /** Where the module list starts: after the header and the directory. */
  function ListAt(s: Streams): nat {
    FirstStreamAt(s)
  }

  function PiecesAt(s: Streams, ms: seq<Module>): nat {
    ListAt(s) + 4 + 108 * |ms|
  }

  predicate Encodable(s: Streams, ms: seq<Module>) {
    && IsFirst(s, 4)
    && (forall m :: m in ms ==> IsModule(m))
    && PiecesAt(s, ms) + PiecesSize(ms) < TWO32
  }

  /** The directory entry of the module list. */
  function Entry(s: Streams, ms: seq<Module>): DirEntry
    requires Encodable(s, ms)
  {
    DirEntry(4, 4 + 108 * |ms|, ListAt(s))
  }

  function Index(s: Streams, ms: seq<Module>): (ws: seq<u32>)
    requires Encodable(s, ms)
    ensures |ws| == 9 + 3 * StreamCount(s) + 27 * |ms|
  {
    Header(s) + DirWords(Directory(s, Entry(s, ms))) + [|ms|] + Records(ms, PiecesAt(s, ms))
  }

  function Build(s: Streams, ms: seq<Module>): (buf: seq<byte>)
    requires Encodable(s, ms)
    ensures |buf| == PiecesAt(s, ms) + PiecesSize(ms)
  {
    NamesAreShort(ms);
    Words(Index(s, ms)) + Pieces(ms)
  }

  lemma {:induction false} NamesAreShort(ms: seq<Module>)
    requires PiecesSize(ms) < TWO32
    ensures ShortNames(ms)
  {
    if ms != [] {
      NamesAreShort(ms[1..]);
    }
  }

  // ----- What patching does to a module

  /** The ASCII characters of a name. */
  function KeepAscii(name: seq<u16>): Path {
    if name == [] then []
    else (if 1 <= name[0] <= 127 then [name[0] as nat] else []) + KeepAscii(name[1..])
  }

  /** The record that holds `id`: "BpEL", the ID, what was there before. */
  function Signed(m: Module, id: BuildId): (r: Module)
    requires 4 + |id| <= |m.cv|
    ensures |r.cv| == |m.cv|
  {
    m.(size := 4 + |id|, cv := [0x4C, 0x45, 0x70, 0x42] + id + m.cv[4 + |id|..])
  }

  predicate IsSigned(m: Module) {
    |m.cv| >= 4 && m.cv[..4] == [0x4C, 0x45, 0x70, 0x42]
  }

  /** The daemon signs a record of at least 20 bytes that is not signed and fits the ID. */
  predicate DaemonSigns(m: Module, lookup: Path -> BuildId) {
    var path := KeepAscii(m.name);
    && 20 <= m.size <= |m.cv| && !IsSigned(m)
    && path != [] && lookup(path) != [] && 4 + |lookup(path)| <= m.size
  }

  function DaemonPatched(m: Module, lookup: Path -> BuildId): Module {
    if DaemonSigns(m, lookup) then Signed(m, lookup(KeepAscii(m.name))) else m
  }

  /** The tool does not ask for 20 bytes, and takes the whole name. */
  predicate ToolSigns(m: Module, lookup: Path -> BuildId) {
    var path: Path := m.name;
    && 4 <= m.size <= |m.cv| && !IsSigned(m)
    && path != [] && lookup(path) != [] && 4 + |lookup(path)| <= m.size
  }

  function ToolPatched(m: Module, lookup: Path -> BuildId): Module {
    if ToolSigns(m, lookup) then Signed(m, lookup(m.name)) else m
  }

  // ----- Where the fields are

  /** Where the piece of module `i` starts, relative to the first. */
  function Before(ms: seq<Module>, i: nat): nat
    requires i <= |ms|
  {
    PiecesSize(ms[..i])
  }

  lemma BeforeNext(ms: seq<Module>, i: nat)
    requires 0 < i <= |ms|
    ensures Before(ms, i) == PieceSize(ms[0]) + Before(ms[1..], i - 1)
  {
    assert ms[..i][1..] == ms[1..][..i - 1];
  }

  lemma {:induction false} PieceInside(ms: seq<Module>, i: nat)
    requires i < |ms|
    ensures Before(ms, i) + PieceSize(ms[i]) <= PiecesSize(ms)
    decreases i
  {
    if i > 0 {
      BeforeNext(ms, i);
      PieceInside(ms[1..], i - 1);
    }
  }

  lemma {:induction false} RecordAt(ms: seq<Module>, at: nat, i: nat, c: nat)
    requires (forall m :: m in ms ==> IsModule(m)) && at + PiecesSize(ms) < TWO32
    requires i < |ms| && c < 27
    ensures at + Before(ms, i) + PieceSize(ms[i]) < TWO32
    ensures Records(ms, at)[27 * i + c] == Record(ms[i], at + Before(ms, i))[c]
    decreases i
  {
    hide Record, IsModule;
    PieceInside(ms, i);
    if i > 0 {
      BeforeNext(ms, i);
      RecordAt(ms[1..], at + PieceSize(ms[0]), i - 1, c);
    }
  }

  lemma {:induction false} PiecesSplit(ms: seq<Module>, i: nat)
    requires ShortNames(ms) && i < |ms|
    ensures Before(ms, i) + PieceSize(ms[i]) <= |Pieces(ms)|
    ensures Pieces(ms)[Before(ms, i)..Before(ms, i) + PieceSize(ms[i])] == Piece(ms[i])
    decreases i
  {
    hide Piece, PieceSize;
    PieceInside(ms, i);
    if i > 0 {
      BeforeNext(ms, i);
      PiecesSplit(ms[1..], i - 1);
      var at, size := Before(ms[1..], i - 1), PieceSize(ms[i]);
      var first, all := |Piece(ms[0])|, Pieces(ms);
      assert all[first..] == Pieces(ms[1..]);
      SliceOfSlice(all, first, |all|, at, at + size);
    }
  }

  function PieceAt(s: Streams, ms: seq<Module>, i: nat): u32
    requires Encodable(s, ms) && i < |ms|
  {
    PieceInside(ms, i);
    PiecesAt(s, ms) + Before(ms, i)
  }

  lemma BuiltWord(s: Streams, ms: seq<Module>, j: nat)
    requires Encodable(s, ms) && j < |Index(s, ms)|
    ensures ReadU32(Build(s, ms), 4 * j) == Index(s, ms)[j]
  {
    hide Index, ReadU32, Words, Pieces;
    NamesAreShort(ms);
    WordAt(Index(s, ms), Pieces(ms), j);
  }

  lemma BuiltHeader(s: Streams, ms: seq<Module>)
    requires Encodable(s, ms)
    ensures var buf := Build(s, ms);
      && ReadU32(buf, 0) == 0x504D_444D && ReadU32(buf, 8) == StreamCount(s) && ReadU32(buf, 12) == 32
      && ReadU32(buf, ListAt(s)) == |ms|
  {
    hide Build, ReadU32, DirWords, Records;
    BuiltWord(s, ms, 0);
    BuiltWord(s, ms, 2);
    BuiltWord(s, ms, 3);
    BuiltWord(s, ms, 8 + 3 * StreamCount(s));
  }

  lemma BuiltDirEntry(s: Streams, ms: seq<Module>, k: nat)
    requires Encodable(s, ms) && k < StreamCount(s)
    ensures ReadU32(Build(s, ms), 32 + 12 * k) == Directory(s, Entry(s, ms))[k].kind
    ensures ReadU32(Build(s, ms), 40 + 12 * k) == Directory(s, Entry(s, ms))[k].rva
  {
    hide Build, ReadU32, DirWords, Records, Directory, Header;
    BuiltWord(s, ms, 8 + 3 * k);
    BuiltWord(s, ms, 10 + 3 * k);
    DirWordAt(Directory(s, Entry(s, ms)), k);
  }

  /** The three fields of record `i`, 108 bytes after the one before it. */
  lemma BuiltRecord(s: Streams, ms: seq<Module>, i: nat)
    requires Encodable(s, ms) && i < |ms|
    ensures var buf, m, at := Build(s, ms), ListAt(s) + 4 + 108 * i, PieceAt(s, ms, i);
      && ReadU32(buf, m + 20) == at && ReadU32(buf, m + 76) == ms[i].size
      && ReadU32(buf, m + 80) == if ms[i].cv == [] then 0 else at + 6 + 2 * |ms[i].name|
  {
    hide Build, ReadU32, DirWords, Records, PiecesSize, Directory;
    var first, at := 9 + 3 * StreamCount(s) + 27 * i, PiecesAt(s, ms);
    BuiltWord(s, ms, first + 5);
    BuiltWord(s, ms, first + 19);
    BuiltWord(s, ms, first + 20);
    RecordAt(ms, at, i, 5);
    RecordAt(ms, at, i, 19);
    RecordAt(ms, at, i, 20);
  }

  lemma BuiltPiece(s: Streams, ms: seq<Module>, i: nat)
    requires Encodable(s, ms) && i < |ms|
    ensures |ms[i].name| < 0x8000_0000
    ensures var buf, at := Build(s, ms), PieceAt(s, ms, i);
      at + PieceSize(ms[i]) <= |buf| && buf[at..at + PieceSize(ms[i])] == Piece(ms[i])
  {
    hide Index, Words, Pieces, Piece, PieceSize;
    NamesAreShort(ms);
    PiecesSplit(ms, i);
    var at, size := Before(ms, i), PieceSize(ms[i]);
    assert Build(s, ms)[PiecesAt(s, ms)..] == Pieces(ms);
    SliceOfSlice(Build(s, ms), PiecesAt(s, ms), |Build(s, ms)|, at, at + size);
  }

  // ----- The table

  lemma {:induction false} FindsList(s: Streams, ms: seq<Module>, k: nat)
    requires Encodable(s, ms) && k <= |s.before|
    ensures FindModuleStream(Build(s, ms), 32, StreamCount(s), k) == ListAt(s)
    decreases |s.before| - k
  {
    hide Build, ReadU32, PiecesSize, IsModule;
    BuiltDirEntry(s, ms, k);
    if k < |s.before| {
      assert s.before[k] in s.before;
      FindsList(s, ms, k + 1);
    }
  }

  /** The first module list is found wherever it stands, and read unless it is absurdly long. */
  lemma BuiltTable(s: Streams, ms: seq<Module>)
    requires Encodable(s, ms)
    ensures IsMinidump(Build(s, ms))
    ensures ModuleTable(Build(s, ms)) == if |ms| > 4096 then Table(0, 0) else Table(ListAt(s) + 4, |ms|)
    ensures PyTable(Build(s, ms)) == ModuleTable(Build(s, ms))
  {
    hide Build, ReadU32, FindModuleStream, PiecesSize, IsModule;
    BuiltHeader(s, ms);
    FindsList(s, ms, 0);
  }

  // ----- Names

  lemma {:induction false} Utf16At(name: seq<u16>, k: nat)
    requires k < |name|
    ensures CodeUnit(Utf16(name)[2 * k], Utf16(name)[2 * k + 1]) == name[k]
    decreases k
  {
    if k > 0 {
      Utf16At(name[1..], k - 1);
    }
  }

  lemma KeptIs(ch: nat)
    ensures Kept(ch) == if 1 <= ch <= 127 then [ch] else []
  {
  }

  /** The text `name` lies in the file at `start`. */
  predicate HoldsText(buf: seq<byte>, start: nat, name: seq<u16>) {
    && start + 2 * |name| <= |buf| && start + 2 * |name| < TWO32
    && buf[start..start + 2 * |name|] == Utf16(name)
  }

  lemma UnitOfText(buf: seq<byte>, start: nat, name: seq<u16>, k: nat)
    requires HoldsText(buf, start, name) && k < |name|
    ensures start + 2 * k + 1 < |buf| && CodeUnit(buf[start + 2 * k], buf[start + 2 * k + 1]) == name[k]
  {
    hide CodeUnit, Utf16;
    Utf16At(name, k);
    var text := buf[start..start + 2 * |name|];
    assert text[2 * k] == buf[start + 2 * k] && text[2 * k + 1] == buf[start + 2 * k + 1];
  }

  lemma KeepStep(name: seq<u16>, k: nat)
    requires k < |name|
    ensures KeepAscii(name[k..]) == Kept(name[k]) + KeepAscii(name[k + 1..])
    ensures name[k..] == [name[k]] + name[k + 1..]
  {
    KeptIs(name[k]);
    assert name[k..][1..] == name[k + 1..];
  }

  lemma {:induction false} CharsOfText(buf: seq<byte>, start: u32, name: seq<u16>, k: nat)
    requires k <= |name| && HoldsText(buf, start, name)
    ensures NameChars(buf, start, 2 * |name|, 2 * k) == Some(KeepAscii(name[k..]))
    decreases |name| - k
  {
    hide CodeUnit, Kept, KeepAscii, HoldsText, NameChars;
    TextFits(buf, start, name);
    if k == |name| {
      NoChars(buf, start, 2 * |name|);
      assert name[k..] == [];
    } else {
      UnitOfText(buf, start, name, k);
      KeepStep(name, k);
      CharsOfText(buf, start, name, k + 1);
      NextChar(buf, start, 2 * |name|, 2 * k);
    }
  }

  lemma NoChars(buf: seq<byte>, start: u32, len: u32)
    requires len % 2 == 0
    ensures NameChars(buf, start, len, len) == Some([]) && KeepAscii([]) == []
  {
  }

  lemma NextChar(buf: seq<byte>, start: u32, len: u32, i: nat)
    requires len % 2 == i % 2 == 0 && i < len && start + len <= |buf| && start + len < TWO32
    ensures NameChars(buf, start, len, i) ==
      match NameChars(buf, start, len, i + 2)
      case None => None
      case Some(rest) => Some(Kept(CodeUnit(buf[start + i], buf[start + i + 1])) + rest)
  {
    hide Kept, CodeUnit;
  }

  lemma TextFits(buf: seq<byte>, start: nat, name: seq<u16>)
    requires HoldsText(buf, start, name)
    ensures start + 2 * |name| <= |buf| && start + 2 * |name| < TWO32
  {
  }

  lemma {:induction false} UnitsOfText(buf: seq<byte>, start: nat, name: seq<u16>, k: nat)
    requires k <= |name| && HoldsText(buf, start, name)
    ensures CodeUnits(buf, start, 2 * |name|, 2 * k) == name[k..]
    decreases |name| - k
  {
    if k < |name| {
      hide CodeUnit, Kept, KeepAscii, Utf16;
      UnitOfText(buf, start, name, k);
      KeepStep(name, k);
      UnitsOfText(buf, start, name, k + 1);
    }
  }

  lemma BuiltSize(s: Streams, ms: seq<Module>, i: nat)
    requires Encodable(s, ms) && i < |ms|
    ensures RecordOff(s, i) + 108 <= PieceAt(s, ms, i)
    ensures PieceAt(s, ms, i) + PieceSize(ms[i]) <= |Build(s, ms)| < TWO32
  {
    hide Index, Words, Pieces, PieceSize;
    PieceInside(ms, i);
  }

  lemma NameOfPiece(buf: seq<byte>, at: u32, m: Module)
    requires 0 < at && at + PieceSize(m) <= |buf| && at + PieceSize(m) < TWO32
    requires buf[at..at + PieceSize(m)] == Piece(m)
    ensures ModuleName(buf, at) == Some(KeepAscii(m.name))
    ensures PyName(buf, at) == m.name
  {
    hide FromLe, NameChars, CodeUnits, Utf16, Le32, Piece;
    PieceParts(buf, at, m);
    ReadOfLe32(buf, at, 2 * |m.name|);
    CharsOfText(buf, at + 4, m.name, 0);
    UnitsOfText(buf, at + 4, m.name, 0);
    assert m.name[0..] == m.name;
  }

  lemma BuiltName(s: Streams, ms: seq<Module>, i: nat)
    requires Encodable(s, ms) && i < |ms|
    ensures ModuleName(Build(s, ms), PieceAt(s, ms, i)) == Some(KeepAscii(ms[i].name))
    ensures PyName(Build(s, ms), PieceAt(s, ms, i)) == ms[i].name
  {
    hide Build, ModuleName, PyName, PieceAt, Encodable, Piece, KeepAscii;
    BuiltSize(s, ms, i);
    BuiltPiece(s, ms, i);
    NameOfPiece(Build(s, ms), PieceAt(s, ms, i), ms[i]);
  }

  lemma SliceOfSlice(buf: seq<byte>, from: nat, to: nat, lo: nat, hi: nat)
    requires from <= to <= |buf| && lo <= hi <= to - from
    ensures buf[from..to][lo..hi] == buf[from + lo..from + hi]
  {
    var s, t := buf[from..to][lo..hi], buf[from + lo..from + hi];
    assert forall k :: 0 <= k < hi - lo ==> s[k] == t[k];
  }

  lemma PieceIs(m: Module)
    requires |m.name| < 0x8000_0000
    ensures var n := 2 * |m.name|;
      Piece(m)[0..4] == Le32(n) && Piece(m)[4..4 + n] == Utf16(m.name) && Piece(m)[6 + n..PieceSize(m)] == m.cv
  {
    hide Le32, Utf16;
  }

  lemma PieceParts(buf: seq<byte>, at: nat, m: Module)
    requires |m.name| < 0x8000_0000 && at + PieceSize(m) <= |buf| && buf[at..at + PieceSize(m)] == Piece(m)
    ensures buf[at..at + 4] == Le32(2 * |m.name|)
    ensures buf[at + 4..at + 4 + 2 * |m.name|] == Utf16(m.name)
    ensures var cvAt := at + 6 + 2 * |m.name|; cvAt + |m.cv| <= |buf| && buf[cvAt..cvAt + |m.cv|] == m.cv
  {
    hide Le32, Utf16;
    var n := 2 * |m.name|;
    PieceIs(m);
    SliceOfSlice(buf, at, at + PieceSize(m), 0, 4);
    SliceOfSlice(buf, at, at + PieceSize(m), 4, 4 + n);
    SliceOfSlice(buf, at, at + PieceSize(m), 6 + n, PieceSize(m));
  }

  // ----- One module

  function CvAt(s: Streams, ms: seq<Module>, i: nat): nat
    requires Encodable(s, ms) && i < |ms|
  {
    PieceAt(s, ms, i) as nat + 6 + 2 * |ms[i].name|
  }

  function RecordOff(s: Streams, i: nat): nat {
    ListAt(s) + 4 + 108 * i
  }

  lemma SignatureIs(s: seq<byte>)
    requires |s| == 4
    ensures Word(s) == BPEL_SIGNATURE <==> s == [0x4C, 0x45, 0x70, 0x42]
    ensures Le32(BPEL_SIGNATURE) == [0x4C, 0x45, 0x70, 0x42]
  {
    WordIs(s);
    assert s == [s[0], s[1], s[2], s[3]];
  }

  lemma BuiltSignature(s: Streams, ms: seq<Module>, i: nat)
    requires Encodable(s, ms) && i < |ms| && |ms[i].cv| >= 4
    ensures CvAt(s, ms, i) + |ms[i].cv| <= |Build(s, ms)|
    ensures ReadU32(Build(s, ms), CvAt(s, ms, i)) == BPEL_SIGNATURE <==> IsSigned(ms[i])
  {
    hide Build, FromLe, PieceAt, Utf16, Word, Encodable, Piece;
    var buf, at := Build(s, ms), PieceAt(s, ms, i);
    BuiltPiece(s, ms, i);
    PieceParts(buf, at, ms[i]);
    var cvAt := CvAt(s, ms, i);
    assert buf[cvAt..cvAt + 4] == ms[i].cv[..4];
    SignatureIs(ms[i].cv[..4]);
  }

  /** What both loop bodies decide about module `i`. */
  lemma BuiltDecision(s: Streams, ms: seq<Module>, lookup: Path -> BuildId, i: nat)
    requires Encodable(s, ms) && i < |ms|
    ensures Decide(Build(s, ms), lookup, RecordOff(s, i)) ==
      if DaemonSigns(ms[i], lookup) then Write(Patch(RecordOff(s, i), CvAt(s, ms, i), lookup(KeepAscii(ms[i].name))))
      else Skip
    ensures PyDecide(Build(s, ms), lookup, RecordOff(s, i)) ==
      if ToolSigns(ms[i], lookup) then Some(Patch(RecordOff(s, i), CvAt(s, ms, i), lookup(ms[i].name)))
      else None
  {
    hide Build, Word, ModuleName, PyName, PieceAt, IsSigned, KeepAscii, Piece, PiecesSize;
    BuiltSize(s, ms, i);
    assert ms[i] in ms;
    BuiltRecord(s, ms, i);
    BuiltPiece(s, ms, i);
    BuiltName(s, ms, i);
    if |ms[i].cv| >= 4 {
      BuiltSignature(s, ms, i);
    }
  }

  // ----- Signing a module in the bytes is signing it in the list

  /** `n` is `m` with another DataSize and another CodeView record of the same length. */
  predicate SameShape(m: Module, n: Module) {
    && IsModule(m) && IsModule(n) && m.cv != [] && |m.cv| == |n.cv|
    && n == m.(size := n.size, cv := n.cv)
  }

  lemma {:induction false} SizesUpdate(ms: seq<Module>, i: nat, n: Module)
    requires i < |ms| && SameShape(ms[i], n)
    ensures PiecesSize(ms[i := n]) == PiecesSize(ms)
    decreases i
  {
    if i == 0 {
      assert ms[0 := n][1..] == ms[1..];
    } else {
      assert ms[i := n][1..] == ms[1..][i - 1 := n];
      SizesUpdate(ms[1..], i - 1, n);
    }
  }

  lemma RecordUpdate(m: Module, n: Module, at: nat)
    requires SameShape(m, n) && at + PieceSize(m) < TWO32
    ensures PieceSize(n) == PieceSize(m) && Record(n, at) == Record(m, at)[19 := n.size]
  {
    var cvAt := at + 6 + 2 * |m.name|;
    assert Record(m, at) == m.before + [at] + m.between + [m.size] + ([cvAt] + m.after);
    assert Record(n, at) == m.before + [at] + m.between + [n.size] + ([cvAt] + m.after);
  }

  lemma RecordsCons(ms: seq<Module>, at: nat, m: Module, rest: seq<Module>)
    requires ms == [m] + rest && (forall m :: m in ms ==> IsModule(m)) && at + PiecesSize(ms) < TWO32
    ensures IsModule(m) && (forall m :: m in rest ==> IsModule(m)) && PiecesSize(ms) == PieceSize(m) + PiecesSize(rest)
    ensures Records(ms, at) == Record(m, at) + Records(rest, at + PieceSize(m))
  {
    hide Record, IsModule;
    assert ms[1..] == rest && m in ms;
  }

  lemma {:induction false} RecordsUpdate(ms: seq<Module>, at: nat, i: nat, n: Module)
    requires (forall m :: m in ms ==> IsModule(m)) && at + PiecesSize(ms) < TWO32
    requires i < |ms| && SameShape(ms[i], n)
    ensures PiecesSize(ms[i := n]) == PiecesSize(ms) && forall m :: m in ms[i := n] ==> IsModule(m)
    ensures Records(ms[i := n], at) == Records(ms, at)[27 * i + 19 := n.size]
    decreases i
  {
    hide Record, Records, IsModule, SameShape, PieceSize, PiecesSize;
    SizesUpdate(ms, i, n);
    assert IsModule(n) by { ShapeIsModule(ms[i], n); }
    var rest := ms[1..];
    RecordsCons(ms, at, ms[0], rest);
    if i == 0 {
      RecordsCons(ms[0 := n], at, n, rest);
      RecordUpdate(ms[0], n, at);
    } else {
      RecordsUpdate(rest, at + PieceSize(ms[0]), i - 1, n);
      RecordsCons(ms[i := n], at, ms[0], rest[i - 1 := n]);
    }
  }

  lemma ShapeIsModule(m: Module, n: Module)
    requires SameShape(m, n)
    ensures IsModule(n)
  {
  }

  lemma PieceUpdate(m: Module, n: Module)
    requires SameShape(m, n) && |m.name| < 0x8000_0000
    ensures Piece(n) == Piece(m)[..6 + 2 * |m.name|] + n.cv
  {
    hide Le32, Utf16;
  }

  lemma PiecesCons(ms: seq<Module>, m: Module, rest: seq<Module>)
    requires ms == [m] + rest && ShortNames(ms)
    ensures |m.name| < 0x8000_0000 && ShortNames(rest) && Pieces(ms) == Piece(m) + Pieces(rest)
  {
    hide Piece;
    assert ms[1..] == rest && m in ms;
  }

  /** `y` in place of the bytes of `s` at `c`. */
  function Spliced(s: seq<byte>, c: nat, y: seq<byte>): (r: seq<byte>)
    requires c + |y| <= |s|
  {
    s[..c] + y + s[c + |y|..]
  }

  lemma SplicedTail(head: seq<byte>, tail: seq<byte>, c: nat, y: seq<byte>)
    requires c + |y| <= |tail|
    ensures Spliced(head + tail, |head| + c, y) == head + Spliced(tail, c, y)
  {
  }

  lemma SplicedHead(head: seq<byte>, tail: seq<byte>, c: nat, y: seq<byte>)
    requires c + |y| == |head|
    ensures Spliced(head + tail, c, y) == head[..c] + y + tail
  {
    assert (head + tail)[|head|..] == tail;
  }

  lemma {:induction false} PiecesUpdate(ms: seq<Module>, i: nat, n: Module)
    requires i < |ms| && SameShape(ms[i], n)
    requires ShortNames(ms) && ShortNames(ms[i := n])
    ensures var c := Before(ms, i) + 6 + 2 * |n.name|;
      c + |n.cv| <= |Pieces(ms)| && Pieces(ms[i := n]) == Spliced(Pieces(ms), c, n.cv)
    decreases i
  {
    hide Piece, Pieces, IsModule, Spliced, ShortNames, PiecesSize;
    var k, rest := 6 + 2 * |n.name|, ms[1..];
    PiecesCons(ms, ms[0], rest);
    if i == 0 {
      NoneBefore(ms);
      PiecesCons(ms[0 := n], n, rest);
      PieceUpdate(ms[0], n);
      SplicedHead(Piece(ms[0]), Pieces(rest), k, n.cv);
    } else {
      hide SameShape;
      BeforeNext(ms, i);
      PiecesCons(ms[i := n], ms[0], rest[i - 1 := n]);
      PiecesUpdate(rest, i - 1, n);
      SplicedTail(Piece(ms[0]), Pieces(rest), Before(rest, i - 1) + k, n.cv);
    }
  }

  lemma NoneBefore(ms: seq<Module>)
    ensures Before(ms, 0) == 0
  {
  }

  /** Two replacements in one sequence, at `a` and further on at `b`. */
  function Replaced(s: seq<byte>, a: nat, x: seq<byte>, b: nat, y: seq<byte>): (r: seq<byte>)
    requires a + |x| <= b && b + |y| <= |s|
  {
    s[..a] + x + s[a + |x|..b] + y + s[b + |y|..]
  }

  lemma BuiltUpdate(s: Streams, ms: seq<Module>, i: nat, n: Module)
    requires Encodable(s, ms) && i < |ms| && SameShape(ms[i], n)
    ensures Encodable(s, ms[i := n])
    ensures CvAt(s, ms, i) + |n.cv| <= |Build(s, ms)| && RecordOff(s, i) + 80 <= CvAt(s, ms, i)
    ensures Build(s, ms[i := n]) == Replaced(Build(s, ms), RecordOff(s, i) + 76, Le32(n.size), CvAt(s, ms, i), n.cv)
  {
    hide Le32, Words, Records, Pieces, PiecesSize, DirWords, Header, IsModule;
    RecordsUpdate(ms, PiecesAt(s, ms), i, n);
    BuiltSize(s, ms, i);
    NamesAreShort(ms);
    NamesAreShort(ms[i := n]);
    PiecesUpdate(ms, i, n);
    var ws, j := Index(s, ms), 9 + 3 * StreamCount(s) + 27 * i + 19;
    assert Index(s, ms[i := n]) == ws[j := n.size];
    WordsUpdate(ws, j, n.size);
    assert Words(ws[j := n.size]) == Spliced(Words(ws), 4 * j, Le32(n.size));
    Concatenated(Words(ws), Pieces(ms), 4 * j, Le32(n.size), CvAt(s, ms, i) - |Words(ws)|, n.cv);
  }

  lemma Concatenated(w: seq<byte>, p: seq<byte>, a: nat, x: seq<byte>, c: nat, y: seq<byte>)
    requires a + |x| <= |w| && c + |y| <= |p|
    ensures Spliced(w, a, x) + Spliced(p, c, y) == Replaced(w + p, a, x, |w| + c, y)
  {
    var all := w + p;
    assert all[..a] == w[..a] && all[a + |x|..|w| + c] == w[a + |x|..] + p[..c];
    assert all[|w| + c + |y|..] == p[c + |y|..];
  }

  lemma ApplyIs(buf: seq<byte>, w: Patch)
    requires Fits(buf, w) && w.modOff + 80 <= w.cvRva
    ensures Apply(buf, w) ==
      Replaced(buf, w.modOff + 76, Le32(4 + |w.id|), w.cvRva, [0x4C, 0x45, 0x70, 0x42] + w.id)
  {
    SignatureIs([0, 0, 0, 0]);
    hide Le32;
  }

  lemma LongerReplaced(s: seq<byte>, a: nat, x: seq<byte>, b: nat, y: seq<byte>, z: seq<byte>)
    requires a + |x| <= b && b + |y| + |z| <= |s| && s[b + |y|..b + |y| + |z|] == z
    ensures Replaced(s, a, x, b, y + z) == Replaced(s, a, x, b, y)
  {
    assert s[b + |y|..] == z + s[b + |y| + |z|..];
  }

  lemma ApplyIsSigned(s: Streams, ms: seq<Module>, i: nat, id: BuildId)
    requires Encodable(s, ms) && i < |ms| && 4 + |id| <= ms[i].size && ms[i].cv != []
    ensures 4 + |id| <= |ms[i].cv| && Encodable(s, ms[i := Signed(ms[i], id)])
    ensures var w := Patch(RecordOff(s, i), CvAt(s, ms, i), id);
      Fits(Build(s, ms), w) && Apply(Build(s, ms), w) == Build(s, ms[i := Signed(ms[i], id)])
  {
    hide Build, Le32, PieceAt, Apply, Piece, Utf16, Replaced;
    assert ms[i] in ms;
    var buf, n := Build(s, ms), Signed(ms[i], id);
    var cvAt, head, tail := CvAt(s, ms, i), [0x4C, 0x45, 0x70, 0x42] + id, ms[i].cv[4 + |id|..];
    BuiltUpdate(s, ms, i, n);
    ApplyIs(buf, Patch(RecordOff(s, i), cvAt, id));
    BuiltPiece(s, ms, i);
    PieceParts(buf, PieceAt(s, ms, i), ms[i]);
    SliceOfSlice(buf, cvAt, cvAt + |n.cv|, 4 + |id|, |n.cv|);
    assert n.cv == head + tail;
    LongerReplaced(buf, RecordOff(s, i) + 76, Le32(4 + |id|), cvAt, head, tail);
  }

  // ----- Whole runs

  /** The modules before `i` as they are, those from `i` on patched. */
  function DaemonFrom(ms: seq<Module>, lookup: Path -> BuildId, i: nat): (r: seq<Module>)
    ensures |r| == |ms|
  {
    seq(|ms|, k requires 0 <= k < |ms| => if k < i then ms[k] else DaemonPatched(ms[k], lookup))
  }

  function ToolFrom(ms: seq<Module>, lookup: Path -> BuildId, i: nat): (r: seq<Module>)
    ensures |r| == |ms|
  {
    seq(|ms|, k requires 0 <= k < |ms| => if k < i then ms[k] else ToolPatched(ms[k], lookup))
  }

  function DaemonCount(ms: seq<Module>, lookup: Path -> BuildId): nat {
    if ms == [] then 0 else (if DaemonSigns(ms[0], lookup) then 1 else 0) + DaemonCount(ms[1..], lookup)
  }

  function ToolCount(ms: seq<Module>, lookup: Path -> BuildId): nat {
    if ms == [] then 0 else (if ToolSigns(ms[0], lookup) then 1 else 0) + ToolCount(ms[1..], lookup)
  }

  predicate Patches(o: Outcome, buf: seq<byte>, count: nat) {
    o.Done? && o.buf == buf && |o.log| == count
  }

  lemma RecordIsAt(s: Streams, ms: seq<Module>, i: nat)
    requires Encodable(s, ms) && i < |ms|
    ensures ModOff(Table(ListAt(s) + 4, |ms|), i) == RecordOff(s, i)
    ensures RecordOff(s, i) + MODULE_SIZE <= |Build(s, ms)|
  {
    hide Build, PieceAt;
    BuiltSize(s, ms, i);
  }

  lemma {:induction false} RunOnList(s: Streams, ms: seq<Module>, lookup: Path -> BuildId, i: nat)
    requires Encodable(s, ms) && i <= |ms|
    ensures Encodable(s, DaemonFrom(ms, lookup, i))
    ensures Patches(Run(Build(s, ms), lookup, Table(ListAt(s) + 4, |ms|), i),
                    Build(s, DaemonFrom(ms, lookup, i)), DaemonCount(ms[i..], lookup))
    decreases |ms| - i
  {
    hide Build, Decide, Apply, DaemonSigns, Encodable, Signed, ModOff, ListAt;
    var t := Table(ListAt(s) + 4, |ms|);
    if i == |ms| {
      RunEnd(Build(s, ms), lookup, t, i);
      assert DaemonFrom(ms, lookup, i) == ms;
    } else {
      RecordIsAt(s, ms, i);
      RunStep(Build(s, ms), lookup, t, i);
      BuiltDecision(s, ms, lookup, i);
      assert ms[i..][1..] == ms[i + 1..];
      if DaemonSigns(ms[i], lookup) {
        var id := lookup(KeepAscii(ms[i].name));
        SignsFits(ms[i], lookup);
        ApplyIsSigned(s, ms, i, id);
        var next := ms[i := Signed(ms[i], id)];
        RunOnList(s, next, lookup, i + 1);
        assert next[i + 1..] == ms[i + 1..];
        assert DaemonFrom(next, lookup, i + 1) == DaemonFrom(ms, lookup, i);
      } else {
        RunOnList(s, ms, lookup, i + 1);
        assert DaemonFrom(ms, lookup, i + 1) == DaemonFrom(ms, lookup, i);
      }
    }
  }

  lemma SignsFits(m: Module, lookup: Path -> BuildId)
    ensures DaemonSigns(m, lookup) ==> m.cv != [] && 4 + |lookup(KeepAscii(m.name))| <= m.size <= |m.cv|
    ensures ToolSigns(m, lookup) ==> m.cv != [] && 4 + |lookup(m.name)| <= m.size <= |m.cv|
  {
  }

  lemma {:induction false} PyRunOnList(s: Streams, ms: seq<Module>, cur: seq<Module>, lookup: Path -> BuildId,
                                       i: nat, patched: nat)
    requires Encodable(s, ms) && Encodable(s, cur) && |cur| == |ms| && i <= |ms|
    requires |Build(s, cur)| == |Build(s, ms)| && forall k :: i <= k < |ms| ==> cur[k] == ms[k]
    requires forall k :: 0 <= k < |ms| ==> PieceSize(cur[k]) == PieceSize(ms[k]) && |cur[k].name| == |ms[k].name|
    ensures Encodable(s, ToolFrom(cur, lookup, i))
    ensures PyRun(Build(s, ms), Build(s, cur), lookup, Table(ListAt(s) + 4, |ms|), i, patched)
         == Finished(Build(s, ToolFrom(cur, lookup, i)), patched + ToolCount(ms[i..], lookup))
    decreases |ms| - i
  {
    hide Build, PyDecide, PyApply, ToolSigns, Encodable, Signed, ModOff, ListAt, Apply;
    hide PieceSize, CvAt, RecordOff;
    if i == |ms| {
      assert ToolFrom(cur, lookup, i) == cur;
    } else {
      RecordIsAt(s, ms, i);
      BuiltDecision(s, ms, lookup, i);
      assert ms[i..][1..] == ms[i + 1..];
      if ToolSigns(ms[i], lookup) {
        var id, w := lookup(ms[i].name), Patch(RecordOff(s, i), CvAt(s, ms, i), lookup(ms[i].name));
        SignsFits(ms[i], lookup);
        SameCvAt(s, ms, cur, i);
        ApplyIsSigned(s, cur, i, id);
        ApplyAgrees(Build(s, cur), w);
        var next := cur[i := Signed(ms[i], id)];
        SignedShape(ms[i], id);
        PyRunOnList(s, ms, next, lookup, i + 1, patched + 1);
        assert ToolFrom(next, lookup, i + 1) == ToolFrom(cur, lookup, i);
      } else {
        PyRunOnList(s, ms, cur, lookup, i + 1, patched);
        assert ToolFrom(cur, lookup, i + 1) == ToolFrom(cur, lookup, i);
      }
    }
  }

  lemma SignedShape(m: Module, id: BuildId)
    requires 4 + |id| <= |m.cv|
    ensures PieceSize(Signed(m, id)) == PieceSize(m) && Signed(m, id).name == m.name
  {
  }

  lemma SameCvAt(s: Streams, ms: seq<Module>, cur: seq<Module>, i: nat)
    requires Encodable(s, ms) && Encodable(s, cur) && |cur| == |ms| && i < |ms|
    requires forall k :: 0 <= k < |ms| ==> PieceSize(cur[k]) == PieceSize(ms[k]) && |cur[k].name| == |ms[k].name|
    ensures CvAt(s, cur, i) == CvAt(s, ms, i)
  {
    hide PieceSize, IsModule;
    SameSizes(ms[..i], cur[..i]);
  }

  lemma {:induction false} SameSizes(ms: seq<Module>, cur: seq<Module>)
    requires |cur| == |ms| && forall k :: 0 <= k < |ms| ==> PieceSize(cur[k]) == PieceSize(ms[k])
    ensures PiecesSize(cur) == PiecesSize(ms)
  {
    hide PieceSize;
    if ms != [] {
      SameSizes(ms[1..], cur[1..]);
    }
  }

  /** The daemon, on any such dump: the result is the dump of the patched modules, byte for byte;
      a list of more than 4096 modules is left alone. */
  lemma PatchesList(s: Streams, ms: seq<Module>, lookup: Path -> BuildId)
    requires Encodable(s, ms)
    ensures Encodable(s, DaemonFrom(ms, lookup, 0))
    ensures if |ms| > 4096 then PatchBuffer(Build(s, ms), lookup) == Done(Build(s, ms), [])
            else Patches(PatchBuffer(Build(s, ms), lookup), Build(s, DaemonFrom(ms, lookup, 0)),
                         DaemonCount(ms, lookup))
  {
    hide Build, Encodable, DaemonFrom, DaemonCount, ModuleTable, Decide;
    BuiltTable(s, ms);
    RunOnList(s, ms, lookup, 0);
    assert ms[0..] == ms;
    if |ms| > 4096 {
      RunEnd(Build(s, ms), lookup, Table(0, 0), 0);
    }
  }

  /** The tool, on the same dumps. */
  lemma PyPatchesList(s: Streams, ms: seq<Module>, lookup: Path -> BuildId)
    requires Encodable(s, ms)
    ensures Encodable(s, ToolFrom(ms, lookup, 0))
    ensures PyPatch(Build(s, ms), lookup) ==
      if |ms| > 4096 then Finished(Build(s, ms), 0)
      else Finished(Build(s, ToolFrom(ms, lookup, 0)), ToolCount(ms, lookup))
  {
    hide Build, Encodable, ToolFrom, ToolCount, ModuleTable, PyTable, PyDecide, PyApply;
    BuiltTable(s, ms);
    PyRunOnList(s, ms, ms, lookup, 0, 0);
    assert ms[0..] == ms;
  }
}
