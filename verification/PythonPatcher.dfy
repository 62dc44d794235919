/** The second implementation, tools/crashomon_tools/patchdmp: it iterates over a copy of the
    dump taken before the first write, with unbounded integers and no minimum record size. */
module PythonPatcher {
  import opened Bytes
  import opened MinidumpPatcher
  import opened PatcherFrame
  import opened WellFormedDump

  /** `Raised` is the struct.error of a `pack_into` beyond the end. */
  datatype PyOutcome = Raised | Finished(data: seq<byte>, patched: nat)

  const REPLACEMENT: nat := 0xFFFD

  /** All UTF-16 code units; an odd byte at the end is replaced. */
  function CodeUnits(data: seq<byte>, start: nat, len: nat, i: nat): Path
    requires start + len <= |data|
    decreases len - i
  {
    if i >= len then []
    else if i + 1 == len then [REPLACEMENT]
    else [CodeUnit(data[start + i], data[start + i + 1])] + CodeUnits(data, start, len, i + 2)
  }

  function PyName(data: seq<byte>, rva: nat): Path {
    if rva == 0 || rva + 4 > |data| then []
    else
      var len := U32At(data, rva);
      if len == 0 || rva + 4 + len > |data| then [] else CodeUnits(data, rva + 4, len, 0)
  }

  function PyTable(data: seq<byte>): Table {
    var rva := ModuleStreamRva(data);
    if !IsMinidump(data) || rva == 0 || rva + 4 > |data| || ReadU32(data, rva) > MAX_MODULES
    then Table(0, 0)
    else Table(rva + 4, ReadU32(data, rva))
  }

  function CvSignature(data: seq<byte>, m: nat): u32 {
    var rva := CvRva(data, m);
    if rva != 0 && CvSize(data, m) >= 4 && rva + 4 <= |data| then U32At(data, rva) else 0
  }

  /** The tests of the loop body, without overrides and sysroot; None means `continue`. */
  function PyDecide(orig: seq<byte>, lookup: Path -> BuildId, m: nat): (a: Option<Patch>)
    ensures a.Some? ==> a.value.modOff == m
  {
    var name := PyName(orig, NameRva(orig, m));
    if CvSignature(orig, m) == BPEL_SIGNATURE then None
    else if CvRva(orig, m) == 0 || CvSize(orig, m) < 4 then None
    else if name == [] || lookup(name) == [] then None
    else if CvSize(orig, m) < 4 + |lookup(name)| then None
    else Some(Patch(m, CvRva(orig, m), lookup(name)))
  }

  /** Slice assignment: the bytes of the slice that exist are replaced, so the data may grow. */
  function Splice(data: seq<byte>, off: nat, id: seq<byte>): (r: seq<byte>)
    requires off <= |data|
    ensures |r| >= |data|
  {
    var end := if off + |id| <= |data| then off + |id| else |data|;
    data[..off] + id + data[end..]
  }

  function PyApply(data: seq<byte>, w: Patch): (r: Option<seq<byte>>)
    requires w.modOff + MODULE_SIZE <= |data|
    ensures r.Some? ==> |r.value| >= |data|
  {
    if w.cvRva + 4 > |data| then None
    else
      var signed := Store(data, w.cvRva, Le32(BPEL_SIGNATURE));
      var identified := Splice(signed, w.cvRva + 4, w.id);
      Some(Store(identified, w.modOff + CV_SIZE_OFF, Le32(4 + |w.id|)))
  }

  /** The loop from module `i` on: decisions on `orig`, writes into `data`. */
  function PyRun(orig: seq<byte>, data: seq<byte>, lookup: Path -> BuildId, t: Table, i: nat, patched: nat): PyOutcome
    requires |orig| <= |data|
    decreases t.count - i
  {
    if i >= t.count || ModOff(t, i) + MODULE_SIZE > |orig| then Finished(data, patched)
    else
      match PyDecide(orig, lookup, ModOff(t, i))
      case None => PyRun(orig, data, lookup, t, i + 1, patched)
      case Some(w) =>
        match PyApply(data, w)
        case None => Raised
        case Some(next) => PyRun(orig, next, lookup, t, i + 1, patched + 1)
  }

  function PyPatch(data: seq<byte>, lookup: Path -> BuildId): PyOutcome {
    PyRun(data, data, lookup, PyTable(data), 0, 0)
  }

  method PatchMinidump(original: seq<byte>, lookup: Path -> BuildId) returns (o: PyOutcome)
    ensures o == PyPatch(original, lookup)
  {
    hide ReadU32, PyDecide, PyApply;
    var t := PyTable(original);
    var data, patched := original, 0;
    var i := 0;
    while i < t.count && ModOff(t, i) + MODULE_SIZE <= |original|
      invariant |original| <= |data|
      invariant PyPatch(original, lookup) == PyRun(original, data, lookup, t, i, patched)
    {
      match PyDecide(original, lookup, ModOff(t, i)) {
        case None =>
        case Some(w) =>
          var next := PyApply(data, w);
          if next.None? {
            return Raised;
          }
          data, patched := next.value, patched + 1;
      }
      i := i + 1;
    }
    return Finished(data, patched);
  }

  // ----- Agreement with the daemon

  predicate AsciiName(buf: seq<byte>, rva: u32) {
    rva != 0 && rva + 4 + ReadU32(buf, rva) <= |buf| ==>
      && ReadU32(buf, rva) % 2 == 0
      && forall k :: 0 <= k < ReadU32(buf, rva) / 2 ==>
           0 < CodeUnit(buf[rva + 4 + 2 * k], buf[rva + 5 + 2 * k]) < 128
  }

  ghost predicate AsciiNames(buf: seq<byte>) {
    forall k: nat :: k < ModuleTable(buf).count ==> AsciiName(buf, NameRva(buf, ModOff(ModuleTable(buf), k)))
  }

  /** A record below the daemon's minimum, yet large enough for the ID of its module: it has an
      RVA, is not yet BpEL, and its module has a name and an ID. */
  predicate ShortRecord(buf: seq<byte>, lookup: Path -> BuildId, m: nat) {
    && CvRva(buf, m) != 0 && ReadU32(buf, CvRva(buf, m)) != BPEL_SIGNATURE
    && ModuleName(buf, NameRva(buf, m)).Some?
    && ModuleName(buf, NameRva(buf, m)).value != [] && IdOf(buf, lookup, m) != []
    && 4 + |IdOf(buf, lookup, m)| <= CvSize(buf, m) < MIN_CV_SIZE
  }

  lemma {:induction false} UnitsAreChars(buf: seq<byte>, start: u32, len: u32, i: nat)
    requires len % 2 == i % 2 == 0 && start + len <= |buf| && start + len < TWO32
    requires forall k :: 0 <= k < len / 2 ==> 0 < CodeUnit(buf[start + 2 * k], buf[start + 1 + 2 * k]) < 128
    ensures NameChars(buf, start, len, i) == Some(CodeUnits(buf, start, len, i))
    decreases len - i
  {
    hide CodeUnit;
    if i < len {
      var k := i / 2;
      assert i == 2 * k && k < len / 2;
      assert Add32(start, i) == start + 2 * k && Add32(start, i + 1) == start + 1 + 2 * k;
      UnitsAreChars(buf, start, len, i + 2);
    }
  }

  lemma NamesAgree(buf: seq<byte>, rva: u32)
    requires rva != 0 ==> rva + 4 + ReadU32(buf, rva) <= |buf| && rva + 4 + ReadU32(buf, rva) < TWO32
    requires AsciiName(buf, rva)
    ensures ModuleName(buf, rva) == Some(PyName(buf, rva))
  {
    hide Word, CodeUnit;
    if rva != 0 && ReadU32(buf, rva) != 0 {
      UnitsAreChars(buf, rva + 4, ReadU32(buf, rva), 0);
    }
  }

  /** The tool's name, unit by unit: any that lies in the file, an odd last byte replaced. */
  lemma PyNameIs(data: seq<byte>, rva: u32)
    ensures rva == 0 || rva + 4 + ReadU32(data, rva) > |data| ==> PyName(data, rva) == []
    ensures var len := ReadU32(data, rva);
      rva != 0 && rva + 4 + len <= |data| ==>
        && |PyName(data, rva)| == (len + 1) / 2
        && (forall k :: 0 <= k < len / 2 ==>
              PyName(data, rva)[k] == data[rva + 4 + 2 * k] as int + 256 * data[rva + 5 + 2 * k] as int)
        && (len % 2 == 1 ==> PyName(data, rva)[len / 2] == 0xFFFD)
  {
    hide Word, CodeUnits;
    var len := ReadU32(data, rva);
    if rva != 0 && rva + 4 + len <= |data| {
      UnitsAre(data, rva + 4, len, 0);
    }
  }

  lemma {:induction false} UnitsAre(data: seq<byte>, start: nat, len: nat, i: nat)
    requires start + len <= |data| && i % 2 == 0 && i <= len
    ensures var units := CodeUnits(data, start, len, i);
      && |units| == (len - i + 1) / 2
      && (forall k :: i / 2 <= k < len / 2 ==>
            units[k - i / 2] == data[start + 2 * k] as int + 256 * data[start + 2 * k + 1] as int)
      && (len % 2 == 1 ==> units[len / 2 - i / 2] == 0xFFFD)
    decreases len - i
  {
    if i + 1 < len {
      UnitsAre(data, start, len, i + 2);
      var units, rest := CodeUnits(data, start, len, i), CodeUnits(data, start, len, i + 2);
      assert units[1..] == rest;
    }
  }

  /** On a well-formed dump the two loop bodies differ on short records only. */
  lemma DecisionsAgree(buf: seq<byte>, lookup: Path -> BuildId, t: Table, k: nat)
    requires WellFormed(buf) && AsciiNames(buf) && t == ModuleTable(buf) && k < t.count
    ensures !ShortRecord(buf, lookup, ModOff(t, k)) ==>
      Decide(buf, lookup, ModOff(t, k)) ==
        match PyDecide(buf, lookup, ModOff(t, k)) case None => Skip case Some(w) => Write(w)
    ensures ShortRecord(buf, lookup, ModOff(t, k)) ==> Decide(buf, lookup, ModOff(t, k)) == Skip
    ensures ShortRecord(buf, lookup, ModOff(t, k)) <==>
      CvSize(buf, ModOff(t, k)) < MIN_CV_SIZE && PyDecide(buf, lookup, ModOff(t, k)).Some?
    ensures PyDecide(buf, lookup, ModOff(t, k)).Some? ==>
      var w := PyDecide(buf, lookup, ModOff(t, k)).value;
      && Fits(buf, w) && w.cvRva == CvRva(buf, ModOff(t, k)) != 0
      && 4 + |w.id| <= CvSize(buf, ModOff(t, k))
      && ReadU32(buf, w.cvRva) != BPEL_SIGNATURE
      && (forall p :: Touches(w, p) ==> Written(buf, t, k, p))
  {
    hide Word, Separated, ModuleName, PyName, AsciiName;
    var m := ModOff(t, k);
    assert ModuleFits(buf, m);
    NamesAgree(buf, NameRva(buf, m));
  }

  lemma ApplyAgrees(data: seq<byte>, w: Patch)
    requires Fits(data, w)
    ensures PyApply(data, w) == Some(Apply(data, w))
  {
    hide Le32;
    var signed := Store(data, w.cvRva, Le32(BPEL_SIGNATURE));
    assert Splice(signed, w.cvRva + 4, w.id) == Store(signed, w.cvRva + 4, w.id);
  }

  lemma TablesAgree(buf: seq<byte>)
    requires TableFits(buf)
    ensures PyTable(buf) == ModuleTable(buf)
  {
    hide ReadU32;
  }

  lemma {:induction false} RunsAgree(orig: seq<byte>, cur: seq<byte>, lookup: Path -> BuildId,
                                     t: Table, i: nat, patched: nat)
    requires WellFormed(orig) && AsciiNames(orig) && t == ModuleTable(orig) && |orig| == |cur|
    requires forall k: nat :: k < t.count ==> !ShortRecord(orig, lookup, ModOff(t, k))
    ensures RunSnapshot(orig, cur, lookup, t, i).Done?
    ensures var Done(out, log) := RunSnapshot(orig, cur, lookup, t, i);
      PyRun(orig, cur, lookup, t, i, patched) == Finished(out, patched + |log|)
    decreases t.count - i
  {
    hide ReadU32, Decide, PyDecide, Apply, PyApply, ShortRecord, WellFormed, AsciiNames, Touches, Written;
    if i < t.count && ModOff(t, i) + MODULE_SIZE <= |orig| {
      DecisionsAgree(orig, lookup, t, i);
      match PyDecide(orig, lookup, ModOff(t, i))
      case None => RunsAgree(orig, cur, lookup, t, i + 1, patched);
      case Some(w) =>
        ApplyAgrees(cur, w);
        RunsAgree(orig, Apply(cur, w), lookup, t, i + 1, patched + 1);
    }
  }

  // ----- A short record makes them differ

  /** The Python loop changes only records and DataSize fields of the modules from `i` on. */
  lemma {:induction false} PyFrame(orig: seq<byte>, cur: seq<byte>, lookup: Path -> BuildId,
                                   t: Table, i: nat, patched: nat)
    requires WellFormed(orig) && AsciiNames(orig) && t == ModuleTable(orig) && |orig| == |cur|
    ensures var o := PyRun(orig, cur, lookup, t, i, patched);
      && o.Finished? && |o.data| == |orig|
      && forall p :: 0 <= p < |orig| && (forall j: nat :: i <= j < t.count ==> !Written(orig, t, j, p)) ==>
           o.data[p] == cur[p]
    decreases t.count - i
  {
    hide ReadU32, PyDecide, Apply, PyApply, ShortRecord, WellFormed, AsciiNames, Touches, Written, Decide;
    if i < t.count && ModOff(t, i) + MODULE_SIZE <= |orig| {
      DecisionsAgree(orig, lookup, t, i);
      match PyDecide(orig, lookup, ModOff(t, i))
      case None => PyFrame(orig, cur, lookup, t, i + 1, patched);
      case Some(w) =>
        ApplyAgrees(cur, w);
        var next := Apply(cur, w);
        PyFrame(orig, next, lookup, t, i + 1, patched + 1);
        forall p | 0 <= p < |orig| && !Written(orig, t, i, p)
          ensures next[p] == cur[p]
        {
          ApplyFrame(cur, w, p);
        }
    }
  }

  lemma {:induction false} PySigns(orig: seq<byte>, cur: seq<byte>, lookup: Path -> BuildId,
                                   t: Table, i: nat, patched: nat, k: nat)
    requires WellFormed(orig) && AsciiNames(orig) && t == ModuleTable(orig) && |orig| == |cur|
    requires i <= k < t.count && PyDecide(orig, lookup, ModOff(t, k)).Some?
    ensures var o := PyRun(orig, cur, lookup, t, i, patched);
      o.Finished? && ReadU32(o.data, CvRva(orig, ModOff(t, k))) == BPEL_SIGNATURE
    decreases t.count - i
  {
    hide ReadU32, PyDecide, Apply, PyApply, ShortRecord, Touches, Written, Decide, AsciiNames, ModuleFits, Separated;
    assert ModOff(t, i) + MODULE_SIZE <= |orig|;
    DecisionsAgree(orig, lookup, t, i);
    match PyDecide(orig, lookup, ModOff(t, i))
    case None => PySigns(orig, cur, lookup, t, i + 1, patched, k);
    case Some(w) =>
      ApplyAgrees(cur, w);
      var next := Apply(cur, w);
      if i < k {
        PySigns(orig, next, lookup, t, i + 1, patched + 1, k);
      } else {
        SignedRecordStays(orig, cur, lookup, t, k, patched, w);
      }
  }

  lemma SignedRecordStays(orig: seq<byte>, cur: seq<byte>, lookup: Path -> BuildId,
                          t: Table, k: nat, patched: nat, w: Patch)
    requires WellFormed(orig) && AsciiNames(orig) && t == ModuleTable(orig) && |orig| == |cur|
    requires k < t.count && PyDecide(orig, lookup, ModOff(t, k)) == Some(w) && Fits(cur, w)
    ensures var o := PyRun(orig, Apply(cur, w), lookup, t, k + 1, patched + 1);
      o.Finished? && ReadU32(o.data, CvRva(orig, ModOff(t, k))) == BPEL_SIGNATURE
  {
    hide ReadU32, PyDecide, Apply, PyApply, Touches, Decide, AsciiNames, PyRun, WellFormed, Written;
    DecisionsAgree(orig, lookup, t, k);
    RecordAndSizeApart(orig, t, k, w.cvRva, 4 + |w.id|);
    ApplyReadsBack(cur, w);
    var next := Apply(cur, w);
    PyFrame(orig, next, lookup, t, k + 1, patched + 1);
    var out := PyRun(orig, next, lookup, t, k + 1, patched + 1).data;
    forall p | In(p, w.cvRva, 4)
      ensures forall j: nat :: k + 1 <= j < t.count ==> !Written(orig, t, j, p)
    {
      assert InCv(orig, ModOff(t, k), p);
      NotWrittenYet(orig, t, k, p);
    }
    ReadAgree(next, out, w.cvRva);
  }

  /** The two implementations produce the same bytes exactly when no record is short: the
      condition can be checked on the dump and the IDs before either runs. */
  lemma ImplementationsAgree(buf: seq<byte>, lookup: Path -> BuildId)
    requires WellFormed(buf) && AsciiNames(buf)
    ensures PatchBuffer(buf, lookup).Done? && PyPatch(buf, lookup).Finished?
    ensures PyPatch(buf, lookup).data == PatchBuffer(buf, lookup).buf <==>
      forall k: nat :: k < ModuleTable(buf).count ==> !ShortRecord(buf, lookup, ModOff(ModuleTable(buf), k))
    ensures PyPatch(buf, lookup).data == PatchBuffer(buf, lookup).buf ==>
      PyPatch(buf, lookup).patched == |PatchBuffer(buf, lookup).log|
  {
    hide ReadU32, Decide, PyDecide, Settled, ModuleFits, Separated, AsciiNames, Run, PyRun, RunSnapshot, ModuleTable;
    var t := ModuleTable(buf);
    InPlaceRefinesSnapshot(buf, lookup);
    TablesAgree(buf);
    PyFrame(buf, buf, lookup, t, 0, 0);
    if k: nat :| k < t.count && ShortRecord(buf, lookup, ModOff(t, k)) {
      DecisionsAgree(buf, lookup, t, k);
      PySigns(buf, buf, lookup, t, 0, 0, k);
      PatchingIsComplete(buf, lookup);
      var out := PatchBuffer(buf, lookup).buf;
      assert Settled(buf, out, lookup, ModOff(t, k));
      UnsettledSignature(buf, out, lookup, t, k);
    } else {
      RunsAgree(buf, buf, lookup, t, 0, 0);
    }
  }

  lemma UnsettledSignature(orig: seq<byte>, cur: seq<byte>, lookup: Path -> BuildId, t: Table, k: nat)
    requires WellFormed(orig) && AsciiNames(orig) && t == ModuleTable(orig) && |orig| == |cur|
    requires k < t.count && ShortRecord(orig, lookup, ModOff(t, k))
    requires Settled(orig, cur, lookup, ModOff(t, k))
    ensures ReadU32(cur, CvRva(orig, ModOff(t, k))) != BPEL_SIGNATURE
  {
    hide ReadU32, Decide, PyDecide, AsciiNames, WellFormed, Touches, Written;
    DecisionsAgree(orig, lookup, t, k);
    ReadAgree(orig, cur, CvRva(orig, ModOff(t, k)));
  }
}
