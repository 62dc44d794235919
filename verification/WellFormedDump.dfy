/** Well-formed dumps: what the patcher does to them, whole runs at a time. */
module WellFormedDump {
  import opened Bytes
  import opened MinidumpPatcher
  import opened PatcherFrame

  // ----- The regions of a dump

  /** The bytes of the CodeView record of the module at `m`; none when its RVA is 0. */
  predicate InCv(buf: seq<byte>, m: nat, p: int) {
    CvRva(buf, m) != 0 && In(p, CvRva(buf, m), CvSize(buf, m))
  }

  function NameLen(buf: seq<byte>, m: nat): nat {
    ReadU32(buf, NameRva(buf, m))
  }

  predicate InName(buf: seq<byte>, m: nat, p: int) {
    NameRva(buf, m) != 0 && In(p, NameRva(buf, m), 4 + NameLen(buf, m))
  }

  predicate InSizeField(m: nat, p: int) {
    In(p, m + CV_SIZE_OFF, 4)
  }

  /** Header, stream directory and module count: what locates the module table. */
  predicate InIndex(buf: seq<byte>, p: int) {
    || In(p, 0, HEADER_SIZE)
    || In(p, ReadU32(buf, 12), ReadU32(buf, 8) * DIR_ENTRY_SIZE)
    || In(p, ModuleStreamRva(buf), 4)
  }

  predicate InRecords(t: Table, p: int) {
    In(p, t.first, t.count * MODULE_SIZE)
  }

  // ----- Well-formedness

  /** The records and names of one module lie in the buffer; no 32-bit sum wraps. */
  predicate ModuleFits(buf: seq<byte>, m: nat) {
    && (CvRva(buf, m) != 0 ==> CvRva(buf, m) + CvSize(buf, m) <= |buf| && CvRva(buf, m) + CvSize(buf, m) < TWO32)
    && (NameRva(buf, m) != 0 ==> NameRva(buf, m) + 4 + NameLen(buf, m) <= |buf|
                                 && NameRva(buf, m) + 4 + NameLen(buf, m) < TWO32)
  }

  predicate TableFits(buf: seq<byte>) {
    && IsMinidump(buf)
    && ModuleStreamRva(buf) != 0 && ModuleStreamRva(buf) + 4 < TWO32
    && ReadU32(buf, ModuleStreamRva(buf)) <= MAX_MODULES
    && ModuleStreamRva(buf) + 4 + ReadU32(buf, ModuleStreamRva(buf)) * MODULE_SIZE <= |buf|
  }

  /** No CodeView record overlaps the index, the module records, a name or another CodeView
      record, and the module records overlap neither the index nor a name. */
  ghost predicate Separated(buf: seq<byte>, t: Table) {
    && (forall i, p {:trigger InCv(buf, ModOff(t, i), p)} :: 0 <= i < t.count && InCv(buf, ModOff(t, i), p) ==>
          && !InIndex(buf, p) && !InRecords(t, p)
          && (forall j :: 0 <= j < t.count ==> !InName(buf, ModOff(t, j), p))
          && (forall j :: 0 <= j < t.count && j != i ==> !InCv(buf, ModOff(t, j), p)))
    && (forall p :: InRecords(t, p) ==> !InIndex(buf, p))
    && (forall j, p {:trigger InName(buf, ModOff(t, j), p)} ::
          0 <= j < t.count && InName(buf, ModOff(t, j), p) ==> !InRecords(t, p))
  }

  ghost predicate WellFormed(buf: seq<byte>) {
    && TableFits(buf)
    && (forall i :: 0 <= i < ModuleTable(buf).count ==> ModuleFits(buf, ModOff(ModuleTable(buf), i)))
    && Separated(buf, ModuleTable(buf))
  }

  // ----- Progress of the loop

  /** Position `p` may have been written while module `j` was patched. */
  predicate Written(orig: seq<byte>, t: Table, j: nat, p: int) {
    InCv(orig, ModOff(t, j), p) || InSizeField(ModOff(t, j), p)
  }

  ghost predicate WrittenBefore(orig: seq<byte>, t: Table, i: nat, p: int) {
    exists j: nat :: j < i && Written(orig, t, j, p)
  }

  /** What the finished loop owes module `m`: a patched one reads back and keeps the rest of
      its old record, any other keeps its whole record and DataSize. */
  ghost predicate Settled(orig: seq<byte>, cur: seq<byte>, lookup: Path -> BuildId, m: nat) {
    match Decide(orig, lookup, m)
    case Write(w) =>
      && ReadU32(cur, w.cvRva) == BPEL_SIGNATURE
      && w.cvRva + 4 + |w.id| <= |cur| && cur[w.cvRva + 4..w.cvRva + 4 + |w.id|] == w.id
      && CvSize(cur, m) == 4 + |w.id|
      && AgreeOn(orig, cur, w.cvRva + 4 + |w.id|, CvSize(orig, m) - 4 - |w.id|)
    case _ =>
      && AgreeOn(orig, cur, m + CV_SIZE_OFF, 4)
      && (CvRva(orig, m) != 0 ==> AgreeOn(orig, cur, CvRva(orig, m), CvSize(orig, m)))
  }

  /** The buffer after the modules before `i` have been handled. */
  ghost predicate Progress(orig: seq<byte>, cur: seq<byte>, lookup: Path -> BuildId, t: Table, i: nat) {
    && |cur| == |orig|
    && (forall p :: 0 <= p < |orig| && !WrittenBefore(orig, t, i, p) ==> cur[p] == orig[p])
    && (forall j :: 0 <= j < i ==> Settled(orig, cur, lookup, ModOff(t, j)))
  }

  // ----- Reads that a patch does not disturb

  lemma ModuleInside(t: Table, i: nat, p: int)
    requires i < t.count && In(p, ModOff(t, i), MODULE_SIZE)
    ensures InRecords(t, p)
  {
  }

  /** The other fields of a record, and all of a later record, are still the original ones. */
  lemma RecordKept(orig: seq<byte>, cur: seq<byte>, lookup: Path -> BuildId, t: Table, i: nat, k: nat)
    requires WellFormed(orig) && t == ModuleTable(orig)
    requires i <= t.count && k < t.count && Progress(orig, cur, lookup, t, i)
    ensures AgreeOn(orig, cur, ModOff(t, k) + NAME_RVA_OFF, 4)
    ensures AgreeOn(orig, cur, ModOff(t, k) + CV_RVA_OFF, 4)
    ensures NameRva(cur, ModOff(t, k)) == NameRva(orig, ModOff(t, k))
    ensures CvRva(cur, ModOff(t, k)) == CvRva(orig, ModOff(t, k))
    ensures i <= k ==> CvSize(cur, ModOff(t, k)) == CvSize(orig, ModOff(t, k))
  {
    hide ReadU32, Decide, Settled, ModuleFits, InIndex;
    var m := ModOff(t, k);
    forall p | In(p, m, MODULE_SIZE) && (InSizeField(m, p) ==> i <= k)
      ensures !WrittenBefore(orig, t, i, p)
    {
      ModuleInside(t, k, p);
    }
    ReadAgree(orig, cur, m + NAME_RVA_OFF);
    ReadAgree(orig, cur, m + CV_RVA_OFF);
    if i <= k {
      ReadAgree(orig, cur, m + CV_SIZE_OFF);
    }
  }

  lemma NameKept(orig: seq<byte>, cur: seq<byte>, lookup: Path -> BuildId, t: Table, i: nat, k: nat)
    requires WellFormed(orig) && t == ModuleTable(orig)
    requires i <= t.count && k < t.count && Progress(orig, cur, lookup, t, i)
    ensures NameRva(orig, ModOff(t, k)) != 0 ==>
              AgreeOn(orig, cur, NameRva(orig, ModOff(t, k)), 4 + NameLen(orig, ModOff(t, k)))
    ensures ModuleName(cur, NameRva(orig, ModOff(t, k))) == ModuleName(orig, NameRva(orig, ModOff(t, k)))
    ensures NameRva(orig, ModOff(t, k)) != 0 ==> NameLen(cur, ModOff(t, k)) == NameLen(orig, ModOff(t, k))
  {
    hide ReadU32, Decide, Settled, InIndex;
    var m := ModOff(t, k);
    var rva := NameRva(orig, m);
    RecordKept(orig, cur, lookup, t, i, k);
    if rva != 0 {
      assert ModuleFits(orig, m);
      forall p | InName(orig, m, p)
        ensures !WrittenBefore(orig, t, i, p)
      {
        forall j: nat | j < i
          ensures !Written(orig, t, j, p)
        {
          if InSizeField(ModOff(t, j), p) {
            ModuleInside(t, j, p);
          }
        }
      }
      NameAgree(orig, cur, rva);
    }
  }

  lemma {:induction false} NameCharsAgree(a: seq<byte>, b: seq<byte>, start: u32, len: u32, i: nat)
    requires len % 2 == i % 2 == 0 && |a| == |b|
    requires start + len < TWO32 && AgreeOn(a, b, start, len)
    ensures NameChars(a, start, len, i) == NameChars(b, start, len, i)
    decreases len - i
  {
    hide Kept, CodeUnit;
    if i < len {
      var p := start + i;
      assert Add32(start, i) == p && Add32(start, i + 1) == p + 1;
      assert p + 1 < |a| ==> b[p] == a[p] && b[p + 1] == a[p + 1];
      NameCharsAgree(a, b, start, len, i + 2);
    }
  }

  lemma NameAgree(a: seq<byte>, b: seq<byte>, rva: u32)
    requires |a| == |b| && rva + 4 + ReadU32(a, rva) < TWO32
    requires AgreeOn(a, b, rva, 4 + ReadU32(a, rva))
    ensures ModuleName(a, rva) == ModuleName(b, rva)
    ensures ReadU32(a, rva) == ReadU32(b, rva)
  {
    hide ReadU32;
    ReadAgree(a, b, rva);
    if ReadU32(a, rva) % 2 == 0 {
      NameCharsAgree(a, b, Add32(rva, 4), ReadU32(a, rva), 0);
    }
  }

  /** The heart of the matter: the loop, reading the buffer it has been writing, decides about
      a module exactly as it would on the untouched dump. */
  lemma DecisionKept(orig: seq<byte>, cur: seq<byte>, lookup: Path -> BuildId, t: Table, i: nat, k: nat)
    requires WellFormed(orig) && t == ModuleTable(orig)
    requires i <= k < t.count && Progress(orig, cur, lookup, t, i)
    ensures Decide(cur, lookup, ModOff(t, k)) == Decide(orig, lookup, ModOff(t, k))
  {
    hide ReadU32, Settled, ModuleName, InIndex;
    var m := ModOff(t, k);
    RecordKept(orig, cur, lookup, t, i, k);
    NameKept(orig, cur, lookup, t, i, k);
    if CvRva(orig, m) != 0 && CvSize(orig, m) >= MIN_CV_SIZE {
      forall p | InCv(orig, m, p)
        ensures !WrittenBefore(orig, t, i, p)
      {
        forall j: nat | j < i
          ensures !Written(orig, t, j, p)
        {
          if InSizeField(ModOff(t, j), p) {
            ModuleInside(t, j, p);
          }
        }
      }
      ReadAgree(orig, cur, CvRva(orig, m));
    }
  }

  // ----- One iteration keeps Progress

  /** On a well-formed dump no iteration leaves the buffer, and a patch stays in its record. */
  lemma DecisionStays(buf: seq<byte>, lookup: Path -> BuildId, t: Table, k: nat)
    requires WellFormed(buf) && t == ModuleTable(buf) && k < t.count
    ensures !Decide(buf, lookup, ModOff(t, k)).Crash?
    ensures Decide(buf, lookup, ModOff(t, k)).Write? ==>
      var w := Decide(buf, lookup, ModOff(t, k)).patch;
      && w.modOff == ModOff(t, k) && w.cvRva == CvRva(buf, ModOff(t, k)) != 0
      && 4 + |w.id| <= CvSize(buf, ModOff(t, k))
      && (forall p :: Touches(w, p) ==> Written(buf, t, k, p))
  {
    hide ReadU32, ModuleName, Separated;
    var m := ModOff(t, k);
    assert ModuleFits(buf, m);
    if NameRva(buf, m) == 0 {
      assert ModuleName(buf, 0) == Some([]) by { EmptyName(buf); }
    } else {
      NameInside(buf, NameRva(buf, m));
    }
  }

  lemma EmptyName(buf: seq<byte>)
    ensures ModuleName(buf, 0) == Some([])
  {
  }

  lemma NameInside(buf: seq<byte>, rva: u32)
    requires rva + 4 + ReadU32(buf, rva) <= |buf| && rva + 4 + ReadU32(buf, rva) < TWO32
    ensures ModuleName(buf, rva).Some?
  {
    hide ReadU32;
    if ReadU32(buf, rva) % 2 == 0 {
      NameStaysInside(buf, Add32(rva, 4), ReadU32(buf, rva), 0);
    }
  }

  /** Settled looks only at the module's record and DataSize. */
  lemma SettledKept(orig: seq<byte>, cur: seq<byte>, next: seq<byte>, lookup: Path -> BuildId, m: nat)
    requires |cur| == |orig| == |next| && Settled(orig, cur, lookup, m)
    requires forall p {:trigger next[p]} ::
      0 <= p < |cur| && (InCv(orig, m, p) || InSizeField(m, p)) ==> next[p] == cur[p]
    requires Decide(orig, lookup, m).Write? ==> 4 + |Decide(orig, lookup, m).patch.id| <= CvSize(orig, m)
    requires Decide(orig, lookup, m).Write? ==> Decide(orig, lookup, m).patch.cvRva == CvRva(orig, m) != 0
    ensures Settled(orig, next, lookup, m)
  {
    hide ReadU32, Decide;
    match Decide(orig, lookup, m)
    case Write(w) =>
      ReadAgree(cur, next, w.cvRva);
      ReadAgree(cur, next, m + CV_SIZE_OFF);
      assert next[w.cvRva + 4..w.cvRva + 4 + |w.id|] == cur[w.cvRva + 4..w.cvRva + 4 + |w.id|];
    case _ =>
  }

  lemma SettledNow(orig: seq<byte>, cur: seq<byte>, lookup: Path -> BuildId, t: Table, i: nat)
    requires WellFormed(orig) && t == ModuleTable(orig)
    requires i < t.count && Progress(orig, cur, lookup, t, i)
    ensures match Decide(orig, lookup, ModOff(t, i))
      case Write(w) => Settled(orig, Apply(cur, w), lookup, ModOff(t, i))
      case _ => Settled(orig, cur, lookup, ModOff(t, i))
  {
    hide ReadU32, Decide, InIndex, Apply;
    var m := ModOff(t, i);
    RecordKept(orig, cur, lookup, t, i, i);
    DecisionStays(orig, lookup, t, i);
    forall p | InCv(orig, m, p) || InSizeField(m, p)
      ensures !WrittenBefore(orig, t, i, p)
    {
      NotWrittenYet(orig, t, i, p);
    }
    match Decide(orig, lookup, m)
    case Write(w) =>
      ApplyReadsBack(cur, w);
      assert Disjoint(w.cvRva, 4 + |w.id|, m + CV_SIZE_OFF, 4) by {
        RecordAndSizeApart(orig, t, i, w.cvRva, 4 + |w.id|);
      }
      forall p | 0 <= p < |cur| && In(p, w.cvRva + 4 + |w.id|, CvSize(orig, m) - 4 - |w.id|)
        ensures Apply(cur, w)[p] == orig[p]
      {
        assert InCv(orig, m, p) && !InSizeField(m, p) by {
          if InSizeField(m, p) {
            ModuleInside(t, i, p);
          }
        }
        ApplyFrame(cur, w, p);
      }
    case _ =>
  }

  lemma NotWrittenYet(orig: seq<byte>, t: Table, i: nat, p: int)
    requires WellFormed(orig) && t == ModuleTable(orig) && i < t.count
    requires InCv(orig, ModOff(t, i), p) || InSizeField(ModOff(t, i), p)
    ensures forall j: nat :: j != i && j < t.count ==> !Written(orig, t, j, p)
  {
    hide ReadU32, InIndex, ModuleFits, TableFits;
    forall j: nat | j != i && j < t.count
      ensures !Written(orig, t, j, p)
    {
      if InSizeField(ModOff(t, j), p) {
        ModuleInside(t, j, p);
      }
      if InSizeField(ModOff(t, i), p) {
        ModuleInside(t, i, p);
      }
    }
  }

  lemma RecordAndSizeApart(orig: seq<byte>, t: Table, i: nat, off: int, len: nat)
    requires WellFormed(orig) && t == ModuleTable(orig) && i < t.count
    requires off == CvRva(orig, ModOff(t, i)) != 0 && len <= CvSize(orig, ModOff(t, i))
    ensures Disjoint(off, len, ModOff(t, i) + CV_SIZE_OFF, 4)
  {
    hide ReadU32, InIndex, ModuleFits, TableFits;
    var s := ModOff(t, i) + CV_SIZE_OFF;
    var p := if off <= s then s else off;
    if In(p, s, 4) {
      ModuleInside(t, i, p);
      assert !InCv(orig, ModOff(t, i), p);
    }
  }

  lemma ProgressStep(orig: seq<byte>, cur: seq<byte>, lookup: Path -> BuildId, t: Table, i: nat)
    requires WellFormed(orig) && t == ModuleTable(orig)
    requires i < t.count && Progress(orig, cur, lookup, t, i)
    ensures match Decide(orig, lookup, ModOff(t, i))
      case Write(w) => Progress(orig, Apply(cur, w), lookup, t, i + 1)
      case _ => Progress(orig, cur, lookup, t, i + 1)
  {
    hide ReadU32, Decide, InIndex, Apply, Settled, WellFormed, Written, Touches;
    DecisionStays(orig, lookup, t, i);
    SettledNow(orig, cur, lookup, t, i);
    match Decide(orig, lookup, ModOff(t, i))
    case Write(w) =>
      var next := Apply(cur, w);
      forall p | 0 <= p < |orig| && !WrittenBefore(orig, t, i + 1, p)
        ensures next[p] == orig[p]
      {
        assert !Written(orig, t, i, p);
        ApplyFrame(cur, w, p);
      }
      forall j | 0 <= j < i
        ensures Settled(orig, next, lookup, ModOff(t, j))
      {
        DecisionStays(orig, lookup, t, j);
        forall p | 0 <= p < |cur| && (InCv(orig, ModOff(t, j), p) || InSizeField(ModOff(t, j), p))
          ensures next[p] == cur[p]
        {
          NotWrittenYet(orig, t, j, p);
          ApplyFrame(cur, w, p);
        }
        SettledKept(orig, cur, next, lookup, ModOff(t, j));
      }
    case _ =>
  }

  // ----- In place refines snapshot

  /** The loop that takes every decision on the original dump and writes a copy. */
  function RunSnapshot(orig: seq<byte>, cur: seq<byte>, lookup: Path -> BuildId, t: Table, i: nat): Outcome
    requires |orig| == |cur|
    decreases t.count - i
  {
    if i >= t.count || ModOff(t, i) + MODULE_SIZE > |orig| then Done(cur, [])
    else
      match Decide(orig, lookup, ModOff(t, i))
      case Skip => RunSnapshot(orig, cur, lookup, t, i + 1)
      case Crash => Fault
      case Write(w) => Prepend([w], RunSnapshot(orig, Apply(cur, w), lookup, t, i + 1))
  }

  lemma {:induction false} RunRefinesSnapshot(orig: seq<byte>, cur: seq<byte>, lookup: Path -> BuildId,
                                              t: Table, i: nat)
    requires WellFormed(orig) && t == ModuleTable(orig)
    requires i <= t.count && Progress(orig, cur, lookup, t, i)
    ensures Run(cur, lookup, t, i) == RunSnapshot(orig, cur, lookup, t, i)
    ensures Run(cur, lookup, t, i).Done?
    ensures Progress(orig, Run(cur, lookup, t, i).buf, lookup, t, t.count)
    decreases t.count - i
  {
    hide ReadU32, Decide, InIndex, Apply, Settled, ModuleFits, Separated;
    if i < t.count {
      DecisionKept(orig, cur, lookup, t, i, i);
      DecisionStays(orig, lookup, t, i);
      ProgressStep(orig, cur, lookup, t, i);
      assert ModOff(t, i) + MODULE_SIZE <= |orig|;
      match Decide(orig, lookup, ModOff(t, i))
      case Skip => RunRefinesSnapshot(orig, cur, lookup, t, i + 1);
      case Crash =>
      case Write(w) => RunRefinesSnapshot(orig, Apply(cur, w), lookup, t, i + 1);
    }
  }

  /** The loop that rereads the buffer it is writing never faults on a well-formed dump and
      yields, byte for byte, the buffer and the patches of the loop over the original. */
  lemma InPlaceRefinesSnapshot(buf: seq<byte>, lookup: Path -> BuildId)
    requires WellFormed(buf)
    ensures PatchBuffer(buf, lookup).Done?
    ensures PatchBuffer(buf, lookup) == RunSnapshot(buf, buf, lookup, ModuleTable(buf), 0)
  {
    hide ReadU32, Decide, Settled, ModuleFits, Separated;
    RunRefinesSnapshot(buf, buf, lookup, ModuleTable(buf), 0);
  }

  /** Completeness: afterwards every module that qualifies reads back its ID, and every other
      module's record and DataSize are untouched; so is everything outside those two. */
  lemma PatchingIsComplete(buf: seq<byte>, lookup: Path -> BuildId)
    requires WellFormed(buf)
    ensures PatchBuffer(buf, lookup).Done?
    ensures Progress(buf, PatchBuffer(buf, lookup).buf, lookup, ModuleTable(buf), ModuleTable(buf).count)
  {
    hide ReadU32, Decide, Settled, ModuleFits, Separated;
    RunRefinesSnapshot(buf, buf, lookup, ModuleTable(buf), 0);
  }

  // ----- Which modules are patched, in terms of the dump alone

  /** The module has a record of at least 20 bytes that is not yet BpEL, an ASCII name, and an
      ID that fits the record. */
  predicate Qualifies(buf: seq<byte>, lookup: Path -> BuildId, m: nat) {
    && CvRva(buf, m) != 0 && CvSize(buf, m) >= 4 + 16
    && ReadU32(buf, CvRva(buf, m)) != BPEL_SIGNATURE
    && ModuleName(buf, NameRva(buf, m)).Some?
    && ModuleName(buf, NameRva(buf, m)).value != [] && IdOf(buf, lookup, m) != []
    && 4 + |IdOf(buf, lookup, m)| <= CvSize(buf, m)
  }

  function IdOf(buf: seq<byte>, lookup: Path -> BuildId, m: nat): BuildId {
    match ModuleName(buf, NameRva(buf, m)) case None => [] case Some(path) => lookup(path)
  }

  /** In `out` the module at `m` reads back `id` from the record that it has in `buf`. */
  predicate ReadsBack(buf: seq<byte>, out: seq<byte>, m: nat, id: seq<byte>) {
    && ReadU32(out, CvRva(buf, m)) == BPEL_SIGNATURE
    && CvSize(out, m) == 4 + |id|
    && CvRva(buf, m) + 4 + |id| <= |out| && out[CvRva(buf, m) + 4..CvRva(buf, m) + 4 + |id|] == id
  }

  ghost predicate Untouched(buf: seq<byte>, out: seq<byte>, m: nat) {
    && CvSize(out, m) == CvSize(buf, m)
    && (CvRva(buf, m) != 0 ==> AgreeOn(buf, out, CvRva(buf, m), CvSize(buf, m)))
  }

  /** How many modules from `i` on qualify. */
  function Qualifying(buf: seq<byte>, lookup: Path -> BuildId, t: Table, i: nat): nat
    decreases t.count - i
  {
    if i >= t.count then 0
    else (if Qualifies(buf, lookup, ModOff(t, i)) then 1 else 0) + Qualifying(buf, lookup, t, i + 1)
  }

  lemma QualifiesIsWrite(buf: seq<byte>, lookup: Path -> BuildId, t: Table, k: nat)
    requires WellFormed(buf) && t == ModuleTable(buf) && k < t.count
    ensures Decide(buf, lookup, ModOff(t, k)) ==
      if Qualifies(buf, lookup, ModOff(t, k)) then
        Write(Patch(ModOff(t, k), CvRva(buf, ModOff(t, k)), IdOf(buf, lookup, ModOff(t, k))))
      else Skip
  {
    hide ReadU32, ModuleName, Separated;
    assert ModuleFits(buf, ModOff(t, k));
    DecisionStays(buf, lookup, t, k);
  }

  lemma {:induction false} LogCountsQualifying(orig: seq<byte>, cur: seq<byte>, lookup: Path -> BuildId,
                                               t: Table, i: nat)
    requires WellFormed(orig) && t == ModuleTable(orig) && |orig| == |cur|
    requires RunSnapshot(orig, cur, lookup, t, i).Done?
    ensures |RunSnapshot(orig, cur, lookup, t, i).log| == Qualifying(orig, lookup, t, i)
    decreases t.count - i
  {
    hide ReadU32, Decide, Apply, Qualifies, ModuleFits, Separated;
    if i < t.count {
      QualifiesIsWrite(orig, lookup, t, i);
      assert ModOff(t, i) + MODULE_SIZE <= |orig|;
      match Decide(orig, lookup, ModOff(t, i))
      case Skip => LogCountsQualifying(orig, cur, lookup, t, i + 1);
      case Crash =>
      case Write(w) => LogCountsQualifying(orig, Apply(cur, w), lookup, t, i + 1);
    }
  }

  /** Completeness, read off the two dumps: a module that qualifies ends with the BpEL
      signature, DataSize 4 + |id| and the bytes of its ID; any other keeps its record and
      DataSize byte for byte; and the number of patches is the number of modules that qualify. */
  lemma QualifyingModulesArePatched(buf: seq<byte>, lookup: Path -> BuildId)
    requires WellFormed(buf)
    ensures PatchBuffer(buf, lookup).Done?
    ensures var Done(out, log) := PatchBuffer(buf, lookup);
      var t := ModuleTable(buf);
      && |out| == |buf| && |log| == Qualifying(buf, lookup, t, 0)
      && forall k: nat :: k < t.count ==>
           if Qualifies(buf, lookup, ModOff(t, k)) then
             ReadsBack(buf, out, ModOff(t, k), IdOf(buf, lookup, ModOff(t, k)))
           else Untouched(buf, out, ModOff(t, k))
  {
    hide ReadU32, Decide, Qualifies, Settled, ModuleFits, Separated, Run, RunSnapshot;
    hide ModuleTable, TableFits, ReadsBack;
    var t := ModuleTable(buf);
    InPlaceRefinesSnapshot(buf, lookup);
    LogCountsQualifying(buf, buf, lookup, t, 0);
    PatchingIsComplete(buf, lookup);
    var out := PatchBuffer(buf, lookup).buf;
    forall k: nat | k < t.count
      ensures if Qualifies(buf, lookup, ModOff(t, k)) then
                ReadsBack(buf, out, ModOff(t, k), IdOf(buf, lookup, ModOff(t, k)))
              else Untouched(buf, out, ModOff(t, k))
    {
      SettledMeans(buf, out, lookup, t, k);
    }
  }

  lemma SettledMeans(buf: seq<byte>, out: seq<byte>, lookup: Path -> BuildId, t: Table, k: nat)
    requires WellFormed(buf) && t == ModuleTable(buf) && k < t.count && |out| == |buf|
    requires Settled(buf, out, lookup, ModOff(t, k))
    ensures if Qualifies(buf, lookup, ModOff(t, k)) then
              ReadsBack(buf, out, ModOff(t, k), IdOf(buf, lookup, ModOff(t, k)))
            else Untouched(buf, out, ModOff(t, k))
  {
    hide ReadU32, Decide, Qualifies, ModuleFits, Separated, IdOf;
    QualifiesIsWrite(buf, lookup, t, k);
    if !Qualifies(buf, lookup, ModOff(t, k)) {
      ReadAgree(buf, out, ModOff(t, k) + CV_SIZE_OFF);
    }
  }

  // ----- The patched dump is well-formed and has nothing left to patch

  lemma {:induction false} FindStreamAgree(a: seq<byte>, b: seq<byte>, dirRva: u32, count: nat, i: nat)
    requires |a| == |b| && AgreeOn(a, b, dirRva, count * DIR_ENTRY_SIZE)
    ensures FindModuleStream(a, dirRva, count, i) == FindModuleStream(b, dirRva, count, i)
    decreases count - i
  {
    hide ReadU32;
    if i < count {
      var entry := dirRva + i * DIR_ENTRY_SIZE;
      assert entry + DIR_ENTRY_SIZE <= dirRva + count * DIR_ENTRY_SIZE;
      ReadAgree(a, b, entry);
      ReadAgree(a, b, entry + 8);
      FindStreamAgree(a, b, dirRva, count, i + 1);
    }
  }

  /** Two buffers that agree on the index of the first have the same index and table. */
  lemma IndexAgree(a: seq<byte>, b: seq<byte>)
    requires |a| == |b| && forall p {:trigger b[p]} :: 0 <= p < |a| && InIndex(a, p) ==> a[p] == b[p]
    ensures ReadU32(a, 8) == ReadU32(b, 8) && ReadU32(a, 12) == ReadU32(b, 12)
    ensures IsMinidump(a) == IsMinidump(b) && ModuleStreamRva(a) == ModuleStreamRva(b)
    ensures ReadU32(a, ModuleStreamRva(a)) == ReadU32(b, ModuleStreamRva(b))
    ensures ModuleTable(a) == ModuleTable(b)
  {
    hide ReadU32;
    ReadAgree(a, b, 0);
    ReadAgree(a, b, 8);
    ReadAgree(a, b, 12);
    FindStreamAgree(a, b, ReadU32(a, 12), ReadU32(a, 8), 0);
    ReadAgree(a, b, ModuleStreamRva(a));
  }

  lemma IndexKept(orig: seq<byte>, cur: seq<byte>, lookup: Path -> BuildId, t: Table)
    requires WellFormed(orig) && t == ModuleTable(orig) && Progress(orig, cur, lookup, t, t.count)
    ensures ModuleTable(cur) == t && TableFits(cur)
    ensures forall p :: InIndex(cur, p) == InIndex(orig, p)
  {
    hide ReadU32, ModuleFits, Settled;
    forall p | 0 <= p < |orig| && InIndex(orig, p)
      ensures orig[p] == cur[p]
    {
      forall j: nat | j < t.count
        ensures !Written(orig, t, j, p)
      {
        if InSizeField(ModOff(t, j), p) {
          ModuleInside(t, j, p);
        }
      }
    }
    IndexAgree(orig, cur);
  }

  /** Of the fields the daemon reads, only DataSize changes, and it never grows. */
  lemma ModuleShrinks(orig: seq<byte>, cur: seq<byte>, lookup: Path -> BuildId, t: Table, k: nat)
    requires WellFormed(orig) && t == ModuleTable(orig) && Progress(orig, cur, lookup, t, t.count)
    requires k < t.count
    ensures NameRva(cur, ModOff(t, k)) == NameRva(orig, ModOff(t, k))
    ensures ModuleName(cur, NameRva(cur, ModOff(t, k))) == ModuleName(orig, NameRva(orig, ModOff(t, k)))
    ensures CvRva(cur, ModOff(t, k)) == CvRva(orig, ModOff(t, k))
    ensures CvSize(cur, ModOff(t, k)) <= CvSize(orig, ModOff(t, k))
    ensures ModuleFits(cur, ModOff(t, k))
    ensures forall p :: InCv(cur, ModOff(t, k), p) ==> InCv(orig, ModOff(t, k), p)
    ensures forall p :: InName(cur, ModOff(t, k), p) == InName(orig, ModOff(t, k), p)
  {
    hide ReadU32, Decide, Separated, ModuleName, TableFits;
    var m := ModOff(t, k);
    RecordKept(orig, cur, lookup, t, t.count, k);
    NameKept(orig, cur, lookup, t, t.count, k);
    DecisionStays(orig, lookup, t, k);
    assert Settled(orig, cur, lookup, m);
    assert ModuleFits(orig, m);
    if !Decide(orig, lookup, m).Write? {
      ReadAgree(orig, cur, m + CV_SIZE_OFF);
    }
  }

  lemma DecideSame(a: seq<byte>, b: seq<byte>, lookup: Path -> BuildId, m: nat)
    requires |a| == |b| && CvSize(a, m) == CvSize(b, m) && CvRva(a, m) == CvRva(b, m)
    requires ModuleName(a, NameRva(a, m)) == ModuleName(b, NameRva(b, m))
    requires CvRva(a, m) != 0 && CvSize(a, m) >= MIN_CV_SIZE ==> ReadU32(a, CvRva(a, m)) == ReadU32(b, CvRva(a, m))
    ensures Decide(a, lookup, m) == Decide(b, lookup, m)
  {
  }

  lemma NothingLeft(orig: seq<byte>, cur: seq<byte>, lookup: Path -> BuildId, t: Table, k: nat)
    requires WellFormed(orig) && t == ModuleTable(orig) && Progress(orig, cur, lookup, t, t.count)
    requires k < t.count
    ensures Decide(cur, lookup, ModOff(t, k)).Skip?
  {
    hide ReadU32, Separated, ModuleName, TableFits, WellFormed;
    var m := ModOff(t, k);
    RecordKept(orig, cur, lookup, t, t.count, k);
    NameKept(orig, cur, lookup, t, t.count, k);
    DecisionStays(orig, lookup, t, k);
    assert Settled(orig, cur, lookup, m);
    if !Decide(orig, lookup, m).Write? {
      ReadAgree(orig, cur, m + CV_SIZE_OFF);
      if CvRva(orig, m) != 0 && CvSize(orig, m) >= MIN_CV_SIZE {
        ReadAgree(orig, cur, CvRva(orig, m));
      }
      DecideSame(orig, cur, lookup, m);
    }
  }

  lemma {:induction false} AllSkipped(buf: seq<byte>, lookup: Path -> BuildId, t: Table, i: nat)
    requires forall k :: i <= k < t.count ==> Decide(buf, lookup, ModOff(t, k)).Skip?
    ensures Run(buf, lookup, t, i) == Done(buf, [])
    decreases t.count - i
  {
    hide ReadU32, Decide;
    if i < t.count {
      AllSkipped(buf, lookup, t, i + 1);
    }
  }

  /** Idempotence: with the same lookup a second run patches no module and changes no byte. */
  lemma PatchingIsIdempotent(buf: seq<byte>, lookup: Path -> BuildId)
    requires WellFormed(buf)
    ensures PatchBuffer(buf, lookup).Done?
    ensures var out := PatchBuffer(buf, lookup).buf; PatchBuffer(out, lookup) == Done(out, [])
  {
    hide ReadU32, Decide, Settled, ModuleFits, Separated, Apply;
    var t := ModuleTable(buf);
    PatchingIsComplete(buf, lookup);
    var out := PatchBuffer(buf, lookup).buf;
    IndexKept(buf, out, lookup, t);
    forall k: nat | k < t.count
      ensures Decide(out, lookup, ModOff(t, k)).Skip?
    {
      NothingLeft(buf, out, lookup, t, k);
    }
    AllSkipped(out, lookup, t, 0);
  }

  /** The output is again well-formed, with the same table, names and RVAs, and no larger
      DataSize. */
  lemma PatchingKeepsWellFormed(buf: seq<byte>, lookup: Path -> BuildId)
    requires WellFormed(buf)
    ensures PatchBuffer(buf, lookup).Done?
    ensures var out, t := PatchBuffer(buf, lookup).buf, ModuleTable(buf);
      && WellFormed(out) && |out| == |buf| && ModuleTable(out) == t
      && forall k: nat :: k < t.count ==>
           && NameRva(out, ModOff(t, k)) == NameRva(buf, ModOff(t, k))
           && ModuleName(out, NameRva(out, ModOff(t, k))) == ModuleName(buf, NameRva(buf, ModOff(t, k)))
           && CvRva(out, ModOff(t, k)) == CvRva(buf, ModOff(t, k))
           && CvSize(out, ModOff(t, k)) <= CvSize(buf, ModOff(t, k))
  {
    hide ReadU32, Decide, Settled, Apply, ModuleFits, InCv, InName, InIndex, ModuleName, TableFits, Run;
    var t := ModuleTable(buf);
    PatchingIsComplete(buf, lookup);
    var out := PatchBuffer(buf, lookup).buf;
    IndexKept(buf, out, lookup, t);
    forall k: nat | k < t.count
      ensures NameRva(out, ModOff(t, k)) == NameRva(buf, ModOff(t, k))
      ensures ModuleName(out, NameRva(out, ModOff(t, k))) == ModuleName(buf, NameRva(buf, ModOff(t, k)))
      ensures CvRva(out, ModOff(t, k)) == CvRva(buf, ModOff(t, k))
      ensures CvSize(out, ModOff(t, k)) <= CvSize(buf, ModOff(t, k))
      ensures ModuleFits(out, ModOff(t, k))
      ensures forall p :: InCv(out, ModOff(t, k), p) ==> InCv(buf, ModOff(t, k), p)
      ensures forall p :: InName(out, ModOff(t, k), p) == InName(buf, ModOff(t, k), p)
    {
      ModuleShrinks(buf, out, lookup, t, k);
    }
  }
}
