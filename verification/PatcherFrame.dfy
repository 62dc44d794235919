/** What one patcher run can change, for any buffer: records may overlap in any way. */
module PatcherFrame {
  import opened Bytes
  import opened MinidumpPatcher

  /** The positions that a patch writes: the head of the record and the DataSize field. */
  predicate Touches(w: Patch, p: int) {
    In(p, w.cvRva, 4 + |w.id|) || In(p, w.modOff + CV_SIZE_OFF, 4)
  }

  ghost predicate SomeTouch(log: seq<Patch>, p: int) {
    exists k :: 0 <= k < |log| && Touches(log[k], p)
  }

  lemma ApplyFrame(buf: seq<byte>, w: Patch, p: nat)
    requires Fits(buf, w) && p < |buf| && !Touches(w, p)
    ensures Apply(buf, w)[p] == buf[p]
  {
    hide Le32;
  }

  /** A patch can be read back: its DataSize always, its signature and ID when the record
      does not overlap the DataSize field. */
  lemma ApplyReadsBack(buf: seq<byte>, w: Patch)
    requires Fits(buf, w)
    ensures CvSize(Apply(buf, w), w.modOff) == 4 + |w.id|
    ensures Disjoint(w.cvRva, 4 + |w.id|, w.modOff + CV_SIZE_OFF, 4) ==>
      && ReadU32(Apply(buf, w), w.cvRva) == BPEL_SIGNATURE
      && Apply(buf, w)[w.cvRva + 4..w.cvRva + 4 + |w.id|] == w.id
  {
    hide Le32;
    var r, s := Apply(buf, w), w.modOff + CV_SIZE_OFF;
    assert r[s..s + 4] == Le32(Add32(4, |w.id|));
    ReadOfLe32(r, s, 4 + |w.id|);
    if Disjoint(w.cvRva, 4 + |w.id|, s, 4) {
      assert r[w.cvRva..w.cvRva + 4] == Le32(BPEL_SIGNATURE);
      ReadOfLe32(r, w.cvRva, BPEL_SIGNATURE);
    }
  }

  /** Frame and bounds: the length stays, every patch fits, the patched modules are distinct
      records of the table, and a byte that changes lies in the signature, the ID or the
      DataSize of a patched module. */
  lemma {:induction false} RunFrame(buf: seq<byte>, lookup: Path -> BuildId, t: Table, i: nat)
    requires Run(buf, lookup, t, i).Done?
    ensures var Done(out, log) := Run(buf, lookup, t, i);
      && |out| == |buf|
      && (forall w :: w in log ==> Fits(buf, w))
      && (forall k :: 0 <= k < |log| ==> ModOff(t, i) <= log[k].modOff)
      && (forall j, k :: 0 <= j < k < |log| ==> log[j].modOff < log[k].modOff)
      && (forall p :: 0 <= p < |buf| && !SomeTouch(log, p) ==> out[p] == buf[p])
    decreases t.count - i
  {
    hide ReadU32, Apply, ModuleName;
    if i < t.count && ModOff(t, i) + MODULE_SIZE <= |buf| {
      match Decide(buf, lookup, ModOff(t, i))
      case Skip => RunFrame(buf, lookup, t, i + 1);
      case Crash =>
      case Write(w) =>
        var mid := Apply(buf, w);
        RunFrame(mid, lookup, t, i + 1);
        var Done(out, rest) := Run(mid, lookup, t, i + 1);
        var log := [w] + rest;
        assert Run(buf, lookup, t, i) == Done(out, log);
        forall p | 0 <= p < |buf| && !SomeTouch(log, p)
          ensures out[p] == buf[p]
        {
          assert !Touches(log[0], p);
          assert forall k :: 0 <= k < |rest| ==> rest[k] == log[k + 1];
          assert !SomeTouch(rest, p);
          ApplyFrame(buf, w, p);
        }
    }
  }

  /** The same for a whole file; in particular a run that patches nothing changes nothing. */
  lemma PatchFrame(buf: seq<byte>, lookup: Path -> BuildId)
    requires PatchBuffer(buf, lookup).Done?
    ensures var Done(out, log) := PatchBuffer(buf, lookup);
      && |out| == |buf|
      && (forall w :: w in log ==> Fits(buf, w))
      && (forall j, k :: 0 <= j < k < |log| ==> log[j].modOff < log[k].modOff)
      && (forall p :: 0 <= p < |buf| && !SomeTouch(log, p) ==> out[p] == buf[p])
      && (log == [] ==> out == buf)
  {
    RunFrame(buf, lookup, ModuleTable(buf), 0);
  }

  // ----- When no access leaves the buffer

  /** The two 32-bit sums of the loop body that guard unchecked accesses do not wrap. */
  predicate NoWrap(buf: seq<byte>, modOff: nat) {
    && CvRva(buf, modOff) + CvSize(buf, modOff) < TWO32
    && NameRva(buf, modOff) + 4 + ReadU32(buf, NameRva(buf, modOff)) < TWO32
  }

  /** NoWrap for every module, on the buffer as it is when the loop reaches that module. */
  ghost predicate NoWrapAlong(buf: seq<byte>, lookup: Path -> BuildId, t: Table, i: nat)
    decreases t.count - i
  {
    i >= t.count || ModOff(t, i) + MODULE_SIZE > |buf| ||
    (NoWrap(buf, ModOff(t, i)) &&
     match Decide(buf, lookup, ModOff(t, i))
     case Skip => NoWrapAlong(buf, lookup, t, i + 1)
     case Crash => true
     case Write(w) => NoWrapAlong(Apply(buf, w), lookup, t, i + 1))
  }

  lemma {:induction false} NameStaysInside(buf: seq<byte>, start: u32, len: u32, i: nat)
    requires len % 2 == i % 2 == 0
    requires start + len <= |buf| && start + len < TWO32
    ensures NameChars(buf, start, len, i).Some?
    decreases len - i
  {
    if i < len {
      NameStaysInside(buf, start, len, i + 2);
    }
  }

  lemma NoWrapNoCrash(buf: seq<byte>, lookup: Path -> BuildId, modOff: nat)
    requires NoWrap(buf, modOff)
    ensures !Decide(buf, lookup, modOff).Crash?
  {
    hide Word;
    var rva := NameRva(buf, modOff);
    var len := ReadU32(buf, rva);
    if rva != 0 && rva + 4 + len <= |buf| && len % 2 == 0 {
      NameStaysInside(buf, Add32(rva, 4), len, 0);
    }
  }

  lemma {:induction false} RunNeverFaults(buf: seq<byte>, lookup: Path -> BuildId, t: Table, i: nat)
    requires NoWrapAlong(buf, lookup, t, i)
    ensures Run(buf, lookup, t, i).Done?
    decreases t.count - i
  {
    hide ReadU32, Apply, ModuleName, NoWrap;
    if i < t.count && ModOff(t, i) + MODULE_SIZE <= |buf| {
      NoWrapNoCrash(buf, lookup, ModOff(t, i));
      match Decide(buf, lookup, ModOff(t, i))
      case Skip => RunNeverFaults(buf, lookup, t, i + 1);
      case Crash =>
      case Write(w) => RunNeverFaults(Apply(buf, w), lookup, t, i + 1);
    }
  }

  // ----- When an access does leave the buffer

  /** The name's range wraps and yet passes its test: the loop comes to index 2^32 - 1. */
  predicate NameLeaves(buf: seq<byte>, rva: u32) {
    var len := ReadU32(buf, rva);
    && |buf| < TWO32
    && rva != 0 && rva + 4 <= |buf| && len % 2 == 0
    && TWO32 <= rva + 4 + len <= TWO32 + |buf|
  }

  /** The loop body gets past its guards and leaves the buffer: while it reads the name, or, the
      record's range having wrapped, when it copies the ID. */
  predicate Leaves(buf: seq<byte>, lookup: Path -> BuildId, modOff: nat) {
    var cvSize, cvRva, nameRva := CvSize(buf, modOff), CvRva(buf, modOff), NameRva(buf, modOff);
    && modOff + MODULE_SIZE <= |buf|
    && cvRva != 0 && cvSize >= MIN_CV_SIZE && Add32(cvRva, cvSize) <= |buf|
    && ReadU32(buf, cvRva) != BPEL_SIGNATURE
    && (NameLeaves(buf, nameRva)
        || (ModuleName(buf, nameRva).Some?
            && var path := ModuleName(buf, nameRva).value;
               path != [] && lookup(path) != []
               && 4 + |lookup(path)| <= cvSize && cvRva + 4 + |lookup(path)| > |buf|))
  }

  lemma {:induction false} CharsLeave(buf: seq<byte>, start: u32, len: u32, i: nat)
    requires len % 2 == i % 2 == 0 && start + i < TWO32 <= start + len && |buf| < TWO32
    ensures NameChars(buf, start, len, i).None?
    decreases len - i
  {
    if start + i + 2 < TWO32 {
      CharsLeave(buf, start, len, i + 2);
    }
  }

  lemma NameLeavesExactly(buf: seq<byte>, rva: u32)
    ensures ModuleName(buf, rva).None? <==> NameLeaves(buf, rva)
  {
    hide FromLe;
    var len := ReadU32(buf, rva);
    if rva != 0 && Add32(rva, 4) <= |buf| && len != 0 && len % 2 == 0 && Add32(Add32(rva, 4), len) <= |buf| {
      var start := Add32(rva, 4);
      if |buf| >= TWO32 {
        CharsInLargeFile(buf, start, len, 0);
      } else if start + len < TWO32 {
        NameStaysInside(buf, start, len, 0);
      } else {
        CharsLeave(buf, start, len, 0);
      }
    }
  }

  /** In a file of 4 GiB or more every 32-bit index is in range. */
  lemma {:induction false} CharsInLargeFile(buf: seq<byte>, start: u32, len: u32, i: nat)
    requires len % 2 == i % 2 == 0 && |buf| >= TWO32
    ensures NameChars(buf, start, len, i).Some?
    decreases len - i
  {
    if i < len {
      CharsInLargeFile(buf, start, len, i + 2);
    }
  }

  /** Exactly when the loop body leaves the buffer. */
  lemma CrashesExactly(buf: seq<byte>, lookup: Path -> BuildId, modOff: nat)
    ensures Decide(buf, lookup, modOff).Crash? <==> Leaves(buf, lookup, modOff)
  {
    hide ReadU32, ModuleName, NameLeaves;
    NameLeavesExactly(buf, NameRva(buf, modOff));
  }

  /** A module that is reached, as the buffer is then, makes the body leave it. */
  ghost predicate LeavesAlong(buf: seq<byte>, lookup: Path -> BuildId, t: Table, i: nat)
    decreases t.count - i
  {
    && i < t.count && ModOff(t, i) + MODULE_SIZE <= |buf|
    && (Leaves(buf, lookup, ModOff(t, i))
        || match Decide(buf, lookup, ModOff(t, i))
           case Write(w) => LeavesAlong(Apply(buf, w), lookup, t, i + 1)
           case _ => LeavesAlong(buf, lookup, t, i + 1))
  }

  /** Exactly when a run leaves the buffer. */
  lemma {:induction false} RunFaultsExactly(buf: seq<byte>, lookup: Path -> BuildId, t: Table, i: nat)
    ensures Run(buf, lookup, t, i).Fault? <==> LeavesAlong(buf, lookup, t, i)
    decreases t.count - i
  {
    hide Decide, Apply, Leaves;
    if i < t.count && ModOff(t, i) + MODULE_SIZE <= |buf| {
      CrashesExactly(buf, lookup, ModOff(t, i));
      match Decide(buf, lookup, ModOff(t, i))
      case Skip => RunFaultsExactly(buf, lookup, t, i + 1);
      case Crash =>
      case Write(w) => RunFaultsExactly(Apply(buf, w), lookup, t, i + 1);
    }
  }
}
