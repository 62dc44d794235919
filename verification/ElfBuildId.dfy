/** The build ID of an ELF file, from its section table: the GNU note, else the hash of .text. */
module ElfBuildId {
  import opened Bytes
  import opened BuildIdNote
  import opened TextHash

  datatype Kind = ProgBits | NoteKind | Other

  /** One section header; its name is already looked up in the string table. */
  datatype Section = Section(name: string, kind: Kind, offset: nat, size: nat)

  datatype Elf = Elf(file: seq<byte>, sections: seq<Section>)

  predicate InFile(e: Elf, s: Section) {
    s.offset + s.size <= |e.file|
  }

  predicate IsNote(s: Section) {
    s.kind.NoteKind? && s.name == ".note.gnu.build-id"
  }

  predicate IsText(s: Section) {
    s.kind.ProgBits? && s.name == ".text"
  }

  /** The ID that a section contributes as a note section; empty if none. */
  function NoteId(e: Elf, s: Section, w: Width): seq<byte> {
    if IsNote(s) && InFile(e, s) then Parse(e.file[s.offset..s.offset + s.size], 0, w) else []
  }

  // ----- The daemon

  function TextId(e: Elf, off: nat, size: nat): seq<byte> {
    if off == 0 || size == 0 || off + size > |e.file| then [] else LaneHash(e.file, off, HashedBytes(size))
  }

  /** The section loop from index `i` on; offset 0 means that no .text was seen yet. */
  function Scan(e: Elf, i: nat, off: nat, size: nat): seq<byte>
    decreases |e.sections| - i
  {
    if i >= |e.sections| then TextId(e, off, size)
    else
      var s := e.sections[i];
      if NoteId(e, s, Bits32) != [] then NoteId(e, s, Bits32)
      else if IsText(s) && off == 0 then Scan(e, i + 1, s.offset, s.size)
      else Scan(e, i + 1, off, size)
  }

  method ComputeElfBuildId(e: Elf) returns (id: seq<byte>)
    ensures id == Scan(e, 0, 0, 0)
  {
    hide Parse, LaneHash, HashedBytes;
    var off: nat, size: nat := 0, 0;
    for i := 0 to |e.sections|
      invariant Scan(e, i, off, size) == Scan(e, 0, 0, 0)
    {
      var s := e.sections[i];
      if IsNote(s) && InFile(e, s) {
        id := ParseBuildIdNote(e.file[s.offset..s.offset + s.size]);
        if id != [] {
          return;
        }
      }
      if IsText(s) && off == 0 {
        off, size := s.offset, s.size;
      }
    }
    if off == 0 || size == 0 || off + size > |e.file| {
      return [];
    }
    var hash := XorTextHash(e.file, off, size);
    return hash[..];
  }

  // ----- The Python twin

  function PyTextId(e: Elf, text: Option<Section>): seq<byte> {
    if text.None? || text.value.size == 0 then [] else LaneHash(e.file, text.value.offset, HashedBytes(text.value.size))
  }

  function PyScan(e: Elf, i: nat, text: Option<Section>): seq<byte>
    decreases |e.sections| - i
  {
    if i >= |e.sections| then PyTextId(e, text)
    else
      var s := e.sections[i];
      if NoteId(e, s, Unbounded) != [] then NoteId(e, s, Unbounded)
      else PyScan(e, i + 1, if IsText(s) && text.None? then Some(s) else text)
  }

  method PyComputeElfBuildId(e: Elf) returns (id: seq<byte>)
    ensures id == PyScan(e, 0, None)
  {
    hide Parse, LaneHash, HashedBytes;
    var text: Option<Section> := None;
    for i := 0 to |e.sections|
      invariant PyScan(e, i, text) == PyScan(e, 0, None)
    {
      var s := e.sections[i];
      if IsNote(s) && InFile(e, s) {
        id := PyParseBuildIdNote(e.file, s.offset, s.size);
        if id != [] {
          return;
        }
      }
      if IsText(s) && text.None? {
        text := Some(s);
      }
    }
    if text.None? || text.value.size == 0 {
      return [];
    }
    var hash := PyXorTextHash(e.file, text.value.offset, text.value.size);
    return hash[..];
  }

  // ----- What both are for

  /** The ID of the first note section from `i` on that has one. */
  function FirstNote(e: Elf, i: nat, w: Width): seq<byte>
    decreases |e.sections| - i
  {
    if i >= |e.sections| then []
    else if NoteId(e, e.sections[i], w) != [] then NoteId(e, e.sections[i], w)
    else FirstNote(e, i + 1, w)
  }

  function FirstText(e: Elf, i: nat): Option<Section>
    decreases |e.sections| - i
  {
    if i >= |e.sections| then None
    else if IsText(e.sections[i]) then Some(e.sections[i])
    else FirstText(e, i + 1)
  }

  /** The .text that the daemon's loop settles on: for it, offset 0 means that none was seen. */
  function FirstPlacedText(e: Elf, i: nat): Option<Section>
    decreases |e.sections| - i
  {
    if i >= |e.sections| then None
    else if IsText(e.sections[i]) && e.sections[i].offset != 0 then Some(e.sections[i])
    else FirstPlacedText(e, i + 1)
  }

  lemma {:induction false} ScanIs(e: Elf, i: nat, off: nat, size: nat)
    requires i <= |e.sections|
    ensures Scan(e, i, off, size) ==
      if FirstNote(e, i, Bits32) != [] then FirstNote(e, i, Bits32)
      else if off != 0 then TextId(e, off, size)
      else match FirstPlacedText(e, i) case None => [] case Some(s) => TextId(e, s.offset, s.size)
    decreases |e.sections| - i
  {
    hide NoteId, LaneHash, HashedBytes, IsText;
    if i < |e.sections| {
      var s := e.sections[i];
      if IsText(s) && off == 0 {
        ScanIs(e, i + 1, s.offset, s.size);
      } else {
        ScanIs(e, i + 1, off, size);
      }
    }
  }

  lemma {:induction false} FirstIsPlaced(e: Elf, i: nat)
    ensures FirstText(e, i).Some? && FirstText(e, i).value.offset != 0 ==> FirstPlacedText(e, i) == FirstText(e, i)
    ensures FirstText(e, i).None? ==> FirstPlacedText(e, i).None?
    decreases |e.sections| - i
  {
    if i < |e.sections| {
      FirstIsPlaced(e, i + 1);
    }
  }

  lemma {:induction false} PyScanIs(e: Elf, i: nat, text: Option<Section>)
    requires i <= |e.sections|
    ensures PyScan(e, i, text) ==
      if FirstNote(e, i, Unbounded) != [] then FirstNote(e, i, Unbounded)
      else PyTextId(e, if text.None? then FirstText(e, i) else text)
    decreases |e.sections| - i
  {
    hide NoteId, PyTextId, IsText;
    if i < |e.sections| {
      PyScanIs(e, i + 1, if IsText(e.sections[i]) && text.None? then Some(e.sections[i]) else text);
    }
  }

  ghost predicate PlainNotes(e: Elf) {
    forall s :: s in e.sections && IsNote(s) && InFile(e, s) ==> PlainFrom(e.file[s.offset..s.offset + s.size], 0)
  }

  lemma {:induction false} FirstNotesAgree(e: Elf, i: nat)
    requires PlainNotes(e)
    ensures FirstNote(e, i, Bits32) == FirstNote(e, i, Unbounded)
    decreases |e.sections| - i
  {
    hide Parse, PlainFrom;
    if i < |e.sections| {
      var s := e.sections[i];
      assert s in e.sections;
      if IsNote(s) && InFile(e, s) {
        ParsersAgree(e.file[s.offset..s.offset + s.size], 0);
      }
      FirstNotesAgree(e, i + 1);
    }
  }

  /** The daemon can hash this section. */
  predicate Hashable(e: Elf, s: Section) {
    s.offset != 0 && s.size != 0 && InFile(e, s)
  }

  /** Where the two hash the same, or nothing. A first .text at an offset other than 0 has to be
      empty or to lie in the file. At offset 0 the daemon passes over it: then the tool must have
      nothing to hash either, or a later .text must have the same hash. */
  predicate TextsAgree(e: Elf) {
    match FirstText(e, 0)
    case None => true
    case Some(s) =>
      if s.offset != 0 then s.size == 0 || InFile(e, s)
      else
        match FirstPlacedText(e, 0)
        case Some(later) =>
          if Hashable(e, later) then s.size != 0 && SameHash(e, s, later) else s.size == 0
        case None => s.size == 0
  }

  predicate SameHash(e: Elf, s: Section, t: Section) {
    forall k :: 0 <= k < HASH_SIZE ==>
      Lane(e.file, s.offset, HashedBytes(s.size), k) == Lane(e.file, t.offset, HashedBytes(t.size), k)
  }

  lemma SameHashIs(e: Elf, s: Section, t: Section)
    ensures SameHash(e, s, t) <==>
      LaneHash(e.file, s.offset, HashedBytes(s.size)) == LaneHash(e.file, t.offset, HashedBytes(t.size))
  {
    hide Lane, HashedBytes;
    var g, h := LaneHash(e.file, s.offset, HashedBytes(s.size)), LaneHash(e.file, t.offset, HashedBytes(t.size));
    assert forall k :: 0 <= k < HASH_SIZE ==> g[k] == Lane(e.file, s.offset, HashedBytes(s.size), k);
    assert forall k :: 0 <= k < HASH_SIZE ==> h[k] == Lane(e.file, t.offset, HashedBytes(t.size), k);
  }

  /** The note wins, and only without one .text decides; the two implementations find the same ID
      if and only if there is a note ID or the texts agree. */
  lemma ElfIdsAgree(e: Elf)
    requires PlainNotes(e)
    ensures FirstNote(e, 0, Bits32) != [] ==> Scan(e, 0, 0, 0) == FirstNote(e, 0, Bits32)
    ensures Scan(e, 0, 0, 0) == PyScan(e, 0, None) <==> FirstNote(e, 0, Bits32) != [] || TextsAgree(e)
  {
    hide LaneHash, HashedBytes, NoteId, FirstNote, FirstText, FirstPlacedText, Scan, PyScan, SameHash;
    ScanIs(e, 0, 0, 0);
    PyScanIs(e, 0, None);
    FirstNotesAgree(e, 0);
    FirstIsPlaced(e, 0);
    if FirstText(e, 0).Some? && FirstPlacedText(e, 0).Some? {
      SameHashIs(e, FirstText(e, 0).value, FirstPlacedText(e, 0).value);
    }
  }

  /** They can differ: of a file whose only section is a .text of one byte at offset 0 the tool
      takes the hash, and the daemon finds no ID. */
  lemma ElfIdsCanDiffer(b: byte)
    ensures var e := Elf([b], [Section(".text", ProgBits, 0, 1)]);
      Scan(e, 0, 0, 0) == [] && |PyScan(e, 0, None)| == HASH_SIZE
  {
    hide LaneHash, HashedBytes;
    var e := Elf([b], [Section(".text", ProgBits, 0, 1)]);
    ScanIs(e, 0, 0, 0);
    PyScanIs(e, 0, None);
    assert FirstText(e, 0) == Some(e.sections[0]);
  }

  // ----- In the names of the sections

  /** The first build-ID note section that lies in the file decides, if its notes hold an ID. */
  lemma NoteGivesId(e: Elf, i: nat, notes: seq<Note>)
    requires i < |e.sections| && forall n :: n in notes ==> Encodable(n)
    requires e.sections[i].name == ".note.gnu.build-id" && e.sections[i].kind == NoteKind
    requires var s := e.sections[i];
      s.offset + s.size <= |e.file| && e.file[s.offset..s.offset + s.size] == EncodeAll(notes)
    requires FirstBuildId(notes) != []
    requires forall j :: 0 <= j < i ==> !(e.sections[j].name == ".note.gnu.build-id" && e.sections[j].kind == NoteKind)
    ensures Scan(e, 0, 0, 0) == PyScan(e, 0, None) == FirstBuildId(notes)
  {
    hide Parse, EncodeAll, FirstBuildId, Encodable, LaneHash, HashedBytes;
    ParseInvertsLayout(notes);
    FirstNoteAt(e, 0, i, Bits32);
    FirstNoteAt(e, 0, i, Unbounded);
    ScanIs(e, 0, 0, 0);
    PyScanIs(e, 0, None);
  }

  lemma {:induction false} FirstNoteAt(e: Elf, k: nat, i: nat, w: Width)
    requires k <= i <= |e.sections|
    requires forall j :: k <= j < i ==> NoteId(e, e.sections[j], w) == []
    requires i < |e.sections| ==> NoteId(e, e.sections[i], w) != []
    ensures FirstNote(e, k, w) == if i < |e.sections| then NoteId(e, e.sections[i], w) else []
    decreases i - k
  {
    hide NoteId;
    if k < i {
      FirstNoteAt(e, k + 1, i, w);
    }
  }

  /** Without such a section the first ".text" is hashed, by both if it lies in the file past its
      start; and without that there is no ID. */
  lemma TextGivesId(e: Elf, i: nat)
    requires i <= |e.sections|
    requires forall s :: s in e.sections ==> !(s.name == ".note.gnu.build-id" && s.kind == NoteKind)
    requires forall j :: 0 <= j < i ==> !(e.sections[j].name == ".text" && e.sections[j].kind == ProgBits)
    requires i < |e.sections| ==>
      var s := e.sections[i];
      s.name == ".text" && s.kind == ProgBits && s.offset > 0 && s.size > 0 && s.offset + s.size <= |e.file|
    ensures Scan(e, 0, 0, 0) == PyScan(e, 0, None) ==
      if i == |e.sections| then [] else LaneHash(e.file, e.sections[i].offset, HashedBytes(e.sections[i].size))
  {
    hide Parse, LaneHash, HashedBytes;
    FirstNoteAt(e, 0, |e.sections|, Bits32);
    FirstNoteAt(e, 0, |e.sections|, Unbounded);
    FirstTextAt(e, 0, i);
    FirstIsPlaced(e, 0);
    ScanIs(e, 0, 0, 0);
    PyScanIs(e, 0, None);
  }

  lemma {:induction false} FirstTextAt(e: Elf, k: nat, i: nat)
    requires k <= i <= |e.sections| && forall j :: k <= j < i ==> !IsText(e.sections[j])
    requires i < |e.sections| ==> IsText(e.sections[i])
    ensures FirstText(e, k) == if i < |e.sections| then Some(e.sections[i]) else None
    decreases i - k
  {
    hide IsText;
    if k < i {
      FirstTextAt(e, k + 1, i);
    }
  }
}
