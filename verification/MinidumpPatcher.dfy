/** The build-ID patcher of daemon/minidump_patcher.cpp: it overwrites CodeView records and
    their size fields in the very buffer whose offsets it is still following. */
module MinidumpPatcher {
  import opened Bytes

  /** A module path, one number per UTF-16 code unit. */
  type Path = seq<nat>

  /** A build ID; with its signature it fits the 32-bit DataSize. */
  type BuildId = id: seq<byte> | 4 + |id| < TWO32

  const MODULE_LIST_STREAM: u32 := 4
  const BPEL_SIGNATURE: u32 := 0x4270454C
  const HEADER_SIZE := 32
  const DIR_ENTRY_SIZE := 12
  const MODULE_SIZE := 108
  const NAME_RVA_OFF := 20
  const CV_SIZE_OFF := 76
  const CV_RVA_OFF := 80
  const MAX_MODULES := 4096
  /** Signature plus the 16 bytes of the XOR hash. */
  const MIN_CV_SIZE := 20

  datatype Status = Ok | InvalidArgument

  /** One patched module: where its record and its CodeView data start, and the ID written. */
  datatype Patch = Patch(modOff: nat, cvRva: nat, id: BuildId)

  /** What the loop body does with one module. `Crash` is an access outside the buffer,
      which C++ leaves undefined. */
  datatype Action = Skip | Crash | Write(patch: Patch)

  datatype Outcome = Fault | Done(buf: seq<byte>, log: seq<Patch>)

  /** The module records: the offset of the first one and how many the stream announces. */
  datatype Table = Table(first: nat, count: nat)

  // ----- ReadModuleName

  /** The characters that the name loop collects from code-unit offset `i` on; None when
      one of its unchecked indices leaves the buffer. */
  function NameChars(buf: seq<byte>, start: u32, len: u32, i: nat): Option<Path>
    requires len % 2 == i % 2 == 0
    decreases len - i
  {
    if i >= len then Some([])
    else
      var lo, hi := Add32(start, i), Add32(start, i + 1);
      if lo >= |buf| || hi >= |buf| then None
      else
        match NameChars(buf, start, len, i + 2)
        case None => None
        case Some(rest) => Some(Kept(CodeUnit(buf[lo], buf[hi])) + rest)
  }

  function CodeUnit(lo: byte, hi: byte): nat {
    (lo as int) + 0x100 * hi
  }

  /** The ASCII fast path keeps only characters 1 to 127. */
  function Kept(ch: nat): Path {
    if 0 < ch < 128 then [ch] else []
  }

  function ModuleName(buf: seq<byte>, rva: u32): Option<Path> {
    if rva == 0 || Add32(rva, 4) > |buf| then Some([])
    else
      var len := ReadU32(buf, rva);
      if len == 0 || len % 2 != 0 || Add32(Add32(rva, 4), len) > |buf| then Some([])
      else NameChars(buf, Add32(rva, 4), len, 0)
  }

  // ----- The stream directory and the module table

  predicate IsMinidump(buf: seq<byte>) {
    |buf| >= HEADER_SIZE && ReadU32(buf, 0) == MDMP_SIGNATURE
  }

  function FindModuleStream(buf: seq<byte>, dirRva: u32, count: nat, i: nat): u32
    decreases count - i
  {
    var entry := dirRva + i * DIR_ENTRY_SIZE;
    if i >= count || entry + DIR_ENTRY_SIZE > |buf| then 0
    else if ReadU32(buf, entry) == MODULE_LIST_STREAM then ReadU32(buf, entry + 8)
    else FindModuleStream(buf, dirRva, count, i + 1)
  }

  function ModuleStreamRva(buf: seq<byte>): u32 {
    FindModuleStream(buf, ReadU32(buf, 12), ReadU32(buf, 8), 0)
  }

  /** The empty table stands for every early return: no stream, no room, absurd count. */
  function ModuleTable(buf: seq<byte>): Table {
    var rva := ModuleStreamRva(buf);
    if !IsMinidump(buf) || rva == 0 || Add32(rva, 4) > |buf| || ReadU32(buf, rva) > MAX_MODULES
    then Table(0, 0)
    else Table(Add32(rva, 4), ReadU32(buf, rva))
  }

  function ModOff(t: Table, i: nat): nat {
    t.first + i * MODULE_SIZE
  }

  // ----- The patch loop

  function NameRva(buf: seq<byte>, modOff: nat): u32 { ReadU32(buf, modOff + NAME_RVA_OFF) }

  function CvSize(buf: seq<byte>, modOff: nat): u32 { ReadU32(buf, modOff + CV_SIZE_OFF) }

  function CvRva(buf: seq<byte>, modOff: nat): u32 { ReadU32(buf, modOff + CV_RVA_OFF) }

  /** The tests of the loop body, in its order. */
  function Decide(buf: seq<byte>, lookup: Path -> BuildId, modOff: nat): (a: Action)
    ensures a.Write? ==> a.patch.modOff == modOff && Fits(buf, a.patch) && a.patch.id != []
  {
    var cvSize, cvRva := CvSize(buf, modOff), CvRva(buf, modOff);
    if modOff + MODULE_SIZE > |buf| then Skip
    else if cvRva == 0 || cvSize < MIN_CV_SIZE then Skip
    else if Add32(cvRva, cvSize) > |buf| then Skip
    else if ReadU32(buf, cvRva) == BPEL_SIGNATURE then Skip
    else
      match ModuleName(buf, NameRva(buf, modOff))
      case None => Crash
      case Some(path) =>
        var id := lookup(path);
        if path == [] || id == [] then Skip
        else if cvSize < Add32(4, |id|) then Skip
        else if cvRva + 4 + |id| > |buf| then Crash
        else Write(Patch(modOff, cvRva, id))
  }

  /** The patch stays inside the buffer. */
  predicate Fits(buf: seq<byte>, p: Patch) {
    p.modOff + MODULE_SIZE <= |buf| && p.cvRva + 4 + |p.id| <= |buf|
  }

  /** The three stores of one patch: the signature, the ID and the new DataSize. */
  function Apply(buf: seq<byte>, p: Patch): (r: seq<byte>)
    requires Fits(buf, p)
    ensures |r| == |buf|
  {
    var signed := WriteU32(buf, p.cvRva, BPEL_SIGNATURE);
    var identified := Store(signed, p.cvRva + 4, p.id);
    WriteU32(identified, p.modOff + CV_SIZE_OFF, Add32(4, |p.id|))
  }

  function Prepend(log: seq<Patch>, o: Outcome): Outcome {
    match o
    case Fault => Fault
    case Done(buf, rest) => Done(buf, log + rest)
  }

  /** The loop from module `i` on. Every module is read from the buffer as patched so far. */
  function Run(buf: seq<byte>, lookup: Path -> BuildId, t: Table, i: nat): (o: Outcome)
    decreases t.count - i
  {
    if i >= t.count || ModOff(t, i) + MODULE_SIZE > |buf| then Done(buf, [])
    else
      match Decide(buf, lookup, ModOff(t, i))
      case Skip => Run(buf, lookup, t, i + 1)
      case Crash => Fault
      case Write(p) => Prepend([p], Run(Apply(buf, p), lookup, t, i + 1))
  }

  function PatchBuffer(buf: seq<byte>, lookup: Path -> BuildId): Outcome {
    Run(buf, lookup, ModuleTable(buf), 0)
  }

  // ----- The in-place implementation

  method ReadModuleName(buf: array<byte>, rva: u32) returns (path: Path)
    requires ModuleName(buf[..], rva).Some?
    ensures path == ModuleName(buf[..], rva).value
  {
    if rva == 0 || Add32(rva, 4) > buf.Length {
      return [];
    }
    var start: u32 := Add32(rva, 4);
    var len: u32 := ReadU32(buf[..], rva);
    if len == 0 || len % 2 != 0 || Add32(start, len) > buf.Length {
      return [];
    }
    path := DecodeName(buf, start, len);
  }

  method DecodeName(buf: array<byte>, start: u32, len: u32) returns (path: Path)
    requires len % 2 == 0 && NameChars(buf[..], start, len, 0).Some?
    ensures path == NameChars(buf[..], start, len, 0).value
  {
    ghost var b := buf[..];
    path := [];
    var i := 0;
    while i < len
      invariant i % 2 == 0 && i <= len
      invariant NameChars(b, start, len, i).Some?
      invariant path + NameChars(b, start, len, i).value == NameChars(b, start, len, 0).value
    {
      ghost var rest := NameChars(b, start, len, i + 2);
      var kept := Kept(CodeUnit(buf[Add32(start, i)], buf[Add32(start, i + 1)]));
      assert path + (kept + rest.value) == path + kept + rest.value;
      path := path + kept;
      i := i + 2;
    }
  }

  method WriteWord(buf: array<byte>, off: nat, v: u32)
    modifies buf
    ensures buf[..] == WriteU32(old(buf[..]), off, v)
  {
    if off + 4 > buf.Length {
      return;
    }
    CopyInto(buf, off, Le32(v));
  }

  /** memcpy into the buffer. */
  method CopyInto(buf: array<byte>, off: nat, data: seq<byte>)
    requires off + |data| <= buf.Length
    modifies buf
    ensures buf[..] == Store(old(buf[..]), off, data)
  {
    for k := 0 to |data|
      invariant forall p :: 0 <= p < buf.Length ==>
        buf[p] == if In(p, off, k) then data[p - off] else old(buf[p])
    {
      buf[off + k] := data[k];
    }
  }

  method FindTable(buf: array<byte>) returns (t: Table)
    requires IsMinidump(buf[..])
    ensures t == ModuleTable(buf[..])
  {
    var streamCount: nat := ReadU32(buf[..], 8);
    var dirRva: u32 := ReadU32(buf[..], 12);
    var rva: u32 := 0;
    var i := 0;
    while i < streamCount
      invariant rva == 0
      invariant ModuleStreamRva(buf[..]) == FindModuleStream(buf[..], dirRva, streamCount, i)
    {
      var entry := dirRva + i * DIR_ENTRY_SIZE;
      if entry + DIR_ENTRY_SIZE > buf.Length {
        break;
      }
      if ReadU32(buf[..], entry) == MODULE_LIST_STREAM {
        rva := ReadU32(buf[..], entry + 8);
        break;
      }
      i := i + 1;
    }
    if rva == 0 || Add32(rva, 4) > buf.Length {
      return Table(0, 0);
    }
    var count: nat := ReadU32(buf[..], rva);
    if count > MAX_MODULES {
      return Table(0, 0);
    }
    return Table(Add32(rva, 4), count);
  }

  method WritePatch(buf: array<byte>, p: Patch)
    requires Fits(buf[..], p)
    modifies buf
    ensures buf[..] == Apply(old(buf[..]), p)
  {
    hide Le32, Store;
    WriteWord(buf, p.cvRva, BPEL_SIGNATURE);
    CopyInto(buf, p.cvRva + 4, p.id);
    WriteWord(buf, p.modOff + CV_SIZE_OFF, Add32(4, |p.id|));
  }

  /** The loop body: patches the module record at `modOff`, or leaves everything as it is. */
  method PatchModule(buf: array<byte>, lookup: Path -> BuildId, modOff: nat) returns (done: bool)
    requires modOff + MODULE_SIZE <= buf.Length
    requires !Decide(buf[..], lookup, modOff).Crash?
    modifies buf
    ensures done == Decide(old(buf[..]), lookup, modOff).Write?
    ensures !done ==> buf[..] == old(buf[..])
    ensures done ==> buf[..] == Apply(old(buf[..]), Decide(old(buf[..]), lookup, modOff).patch)
  {
    var cvSize: u32 := CvSize(buf[..], modOff);
    var cvRva: u32 := CvRva(buf[..], modOff);
    if cvRva == 0 || cvSize < MIN_CV_SIZE {
      return false;
    }
    if Add32(cvRva, cvSize) > buf.Length {
      return false;
    }
    if ReadU32(buf[..], cvRva) == BPEL_SIGNATURE {
      return false;
    }
    var path := ReadModuleName(buf, NameRva(buf[..], modOff));
    if path == [] {
      return false;
    }
    var id := lookup(path);
    if id == [] || cvSize < Add32(4, |id|) {
      return false;
    }
    WritePatch(buf, Patch(modOff, cvRva, id));
    return true;
  }

  method PatchModules(buf: array<byte>, lookup: Path -> BuildId, t: Table) returns (patched: nat)
    requires Run(buf[..], lookup, t, 0).Done?
    modifies buf
    ensures buf[..] == Run(old(buf[..]), lookup, t, 0).buf
    ensures patched == |Run(old(buf[..]), lookup, t, 0).log|
  {
    hide Run, Decide, Apply, ReadU32;
    patched := 0;
    ghost var whole := Run(buf[..], lookup, t, 0);
    ghost var log: seq<Patch> := [];
    var i := 0;
    while i < t.count && ModOff(t, i) + MODULE_SIZE <= buf.Length
      invariant 0 <= i <= t.count
      invariant patched == |log|
      invariant whole == Prepend(log, Run(buf[..], lookup, t, i))
    {
      ghost var was := buf[..];
      ghost var d := Decide(was, lookup, ModOff(t, i));
      RunStep(was, lookup, t, i);
      var done := PatchModule(buf, lookup, ModOff(t, i));
      i := i + 1;
      if done {
        PrependTwice(log, [d.patch], Run(buf[..], lookup, t, i));
        log := log + [d.patch];
        patched := patched + 1;
      }
    }
    RunEnd(buf[..], lookup, t, i);
  }

  /** The daemon's entry point on the bytes of one file. The only demand is that no access
      leaves the buffer; RunFaultsExactly says when one does. */
  method PatchMissingBuildIds(buf: array<byte>, lookup: Path -> BuildId)
    returns (status: Status, patched: nat)
    requires PatchBuffer(buf[..], lookup).Done?
    modifies buf
    ensures status == if buf.Length >= 32 && old(buf[..4]) == Ascii("MDMP") then Ok else InvalidArgument
    ensures status != Ok ==> buf[..] == old(buf[..]) && patched == 0
    ensures PatchBuffer(old(buf[..]), lookup).buf == buf[..]
    ensures patched == |PatchBuffer(old(buf[..]), lookup).log|
  {
    if buf.Length >= 4 {
      MagicIs(buf[..]);
      assert buf[..][..4] == buf[..4];
    }
    if buf.Length < HEADER_SIZE || ReadU32(buf[..], 0) != MDMP_SIGNATURE {
      return InvalidArgument, 0;
    }
    var t := FindTable(buf);
    patched := PatchModules(buf, lookup, t);
    return Ok, patched;
  }

  lemma RunStep(buf: seq<byte>, lookup: Path -> BuildId, t: Table, i: nat)
    requires i < t.count && ModOff(t, i) + MODULE_SIZE <= |buf|
    ensures Run(buf, lookup, t, i) ==
      match Decide(buf, lookup, ModOff(t, i))
      case Skip => Run(buf, lookup, t, i + 1)
      case Crash => Fault
      case Write(p) => Prepend([p], Run(Apply(buf, p), lookup, t, i + 1))
  {
  }

  lemma RunEnd(buf: seq<byte>, lookup: Path -> BuildId, t: Table, i: nat)
    requires i >= t.count || ModOff(t, i) + MODULE_SIZE > |buf|
    ensures Run(buf, lookup, t, i) == Done(buf, [])
  {
  }

  lemma PrependTwice(a: seq<Patch>, b: seq<Patch>, o: Outcome)
    ensures Prepend(a, Prepend(b, o)) == Prepend(a + b, o)
  {
    if o.Done? {
      assert a + (b + o.log) == a + b + o.log;
    }
  }
}
