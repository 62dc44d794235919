/** The ELF note parser of daemon/minidump_patcher.cpp and of tools/crashomon_tools/patchdmp. */
module BuildIdNote {
  import opened Bytes

  const NT_GNU_BUILD_ID: u32 := 3
  const NOTE_HEADER := 12

  /** C++ computes `(n + 3U) & ~3` on 32 bits, Python on unbounded integers. */
  datatype Width = Bits32 | Unbounded

  /** Up to the next multiple of 4; on 32 bits the sum wraps before it is rounded down. */
  function Pad(w: Width, n: u32): nat {
    if w.Bits32? then Add32(n, 3) / 4 * 4 else RoundUp4(n)
  }

  function RoundUp4(n: nat): nat {
    (n + 3) / 4 * 4
  }

  /** One turn of the loop: an ID to return, or where the next note starts. */
  datatype Turn = Found(id: seq<byte>) | Next(pos: nat)

  function ReadNote(notes: seq<byte>, pos: nat, w: Width): (t: Turn)
    requires pos + NOTE_HEADER <= |notes|
    ensures t.Next? ==> t.pos >= pos + NOTE_HEADER
  {
    var namesz, descsz, kind := U32At(notes, pos), U32At(notes, pos + 4), U32At(notes, pos + 8);
    var desc := pos + NOTE_HEADER + Pad(w, namesz);
    if kind == NT_GNU_BUILD_ID && descsz > 0 && desc + descsz <= |notes| then Found(notes[desc..desc + descsz])
    else Next(desc + Pad(w, descsz))
  }

  /** The parse from position `pos` on; it ends because every turn passes a header. */
  function Parse(notes: seq<byte>, pos: nat, w: Width): seq<byte>
    decreases |notes| - pos
  {
    if pos + NOTE_HEADER > |notes| then []
    else
      match ReadNote(notes, pos, w)
      case Found(id) => id
      case Next(next) => Parse(notes, next, w)
  }

  /** Every access is in range, for any bytes. */
  method ParseBuildIdNote(notes: seq<byte>) returns (id: seq<byte>)
    ensures id == Parse(notes, 0, Bits32)
  {
    hide U32At, Pad;
    var pos := 0;
    while pos + NOTE_HEADER <= |notes|
      invariant Parse(notes, pos, Bits32) == Parse(notes, 0, Bits32)
      decreases |notes| - pos
    {
      ghost var turn := ReadNote(notes, pos, Bits32);
      var namesz, descsz, kind := U32At(notes, pos), U32At(notes, pos + 4), U32At(notes, pos + 8);
      pos := pos + NOTE_HEADER;
      if kind == NT_GNU_BUILD_ID && descsz > 0 {
        var desc := pos + Pad(Bits32, namesz);
        if desc + descsz <= |notes| {
          return notes[desc..desc + descsz];
        }
      }
      pos := pos + Pad(Bits32, namesz) + Pad(Bits32, descsz);
      assert turn == Next(pos);
    }
    return [];
  }

  /** The Python twin works on positions in the whole file. */
  method PyParseBuildIdNote(data: seq<byte>, offset: nat, size: nat) returns (id: seq<byte>)
    requires offset + size <= |data|
    ensures id == Parse(data[offset..offset + size], 0, Unbounded)
  {
    hide Pad, U32At, Parse;
    var end, pos := offset + size, offset;
    ghost var file := data[..end];
    while pos + NOTE_HEADER <= end
      invariant Parse(file, pos, Unbounded) == Parse(file, offset, Unbounded)
      decreases end - pos
    {
      ghost var turn := ReadNote(file, pos, Unbounded);
      ParseTurn(file, pos, Unbounded);
      WordsOfPrefix(data, end, pos);
      var namesz, descsz, kind := U32At(data, pos), U32At(data, pos + 4), U32At(data, pos + 8);
      pos := pos + NOTE_HEADER;
      if kind == NT_GNU_BUILD_ID && descsz > 0 {
        var desc := pos + Pad(Unbounded, namesz);
        if desc + descsz <= end {
          id := data[desc..desc + descsz];
          assert id == file[desc..desc + descsz];
          ParseShift(data[offset..end], file, offset, 0, Unbounded);
          return;
        }
      }
      pos := pos + Pad(Unbounded, namesz) + Pad(Unbounded, descsz);
      assert turn == Next(pos);
    }
    ParseTurn(file, pos, Unbounded);
    ParseShift(data[offset..end], file, offset, 0, Unbounded);
    return [];
  }

  lemma ParseTurn(notes: seq<byte>, pos: nat, w: Width)
    ensures Parse(notes, pos, w) ==
      if pos + NOTE_HEADER > |notes| then []
      else match ReadNote(notes, pos, w) case Found(id) => id case Next(next) => Parse(notes, next, w)
  {
  }

  lemma WordsOfPrefix(data: seq<byte>, end: nat, pos: nat)
    requires pos + NOTE_HEADER <= end <= |data|
    ensures U32At(data[..end], pos) == U32At(data, pos)
    ensures U32At(data[..end], pos + 4) == U32At(data, pos + 4)
    ensures U32At(data[..end], pos + 8) == U32At(data, pos + 8)
  {
    assert data[..end][pos..pos + 4] == data[pos..pos + 4];
    assert data[..end][pos + 4..pos + 8] == data[pos + 4..pos + 8];
    assert data[..end][pos + 8..pos + 12] == data[pos + 8..pos + 12];
  }

  /** Parsing a section inside a file is parsing the section by itself. */
  lemma {:induction false} ParseShift(notes: seq<byte>, file: seq<byte>, offset: nat, pos: nat, w: Width)
    requires offset <= |file| && notes == file[offset..]
    ensures Parse(file, offset + pos, w) == Parse(notes, pos, w)
    decreases |notes| - pos
  {
    hide Word, Pad;
    if pos + NOTE_HEADER <= |notes| {
      ReadShift(notes, file, offset, pos, w);
      match ReadNote(notes, pos, w)
      case Found(id) =>
      case Next(next) => ParseShift(notes, file, offset, next, w);
    }
  }

  lemma ReadShift(notes: seq<byte>, file: seq<byte>, offset: nat, pos: nat, w: Width)
    requires offset <= |file| && notes == file[offset..] && pos + NOTE_HEADER <= |notes|
    ensures ReadNote(file, offset + pos, w) ==
      match ReadNote(notes, pos, w) case Found(id) => Found(id) case Next(next) => Next(offset + next)
  {
    hide Word, Pad;
    var at := offset + pos;
    assert notes[pos..pos + 4] == file[at..at + 4];
    assert notes[pos + 4..pos + 8] == file[at + 4..at + 8];
    assert notes[pos + 8..pos + 12] == file[at + 8..at + 12];
    var desc := pos + NOTE_HEADER + Pad(w, U32At(notes, pos));
    var descsz := U32At(notes, pos + 4);
    if desc + descsz <= |notes| {
      assert file[offset + desc..offset + desc + descsz] == notes[desc..desc + descsz];
    }
  }

  // ----- Parsing inverts the note layout

  datatype Note = Note(kind: u32, name: seq<byte>, desc: seq<byte>)

  /** Name and desc sizes whose padding does not wrap. */
  predicate Encodable(n: Note) {
    |n.name| + 3 < TWO32 && |n.desc| + 3 < TWO32
  }

  function Zeros(n: nat): (r: seq<byte>)
    ensures |r| == n
  {
    seq(n, _ => 0)
  }

  function Padded(s: seq<byte>): (r: seq<byte>)
    ensures |r| == RoundUp4(|s|) && s <= r
    ensures |r| % 4 == 0 && |r| < |s| + 4
  {
    s + Zeros(RoundUp4(|s|) - |s|)
  }

  /** One note as section "Note Section" of chapter 5 of the System V gABI lays it out. */
  function Encode(n: Note): (r: seq<byte>)
    requires Encodable(n)
    ensures |r| == NOTE_HEADER + RoundUp4(|n.name|) + RoundUp4(|n.desc|)
  {
    Le32(|n.name|) + Le32(|n.desc|) + Le32(n.kind) + Padded(n.name) + Padded(n.desc)
  }

  function EncodeAll(notes: seq<Note>): seq<byte>
    requires forall n :: n in notes ==> Encodable(n)
  {
    if notes == [] then [] else Encode(notes[0]) + EncodeAll(notes[1..])
  }

  /** The desc of the first build-ID note that has one. */
  function FirstBuildId(notes: seq<Note>): seq<byte> {
    if notes == [] then []
    else if notes[0].kind == NT_GNU_BUILD_ID && notes[0].desc != [] then notes[0].desc
    else FirstBuildId(notes[1..])
  }

  lemma FieldsOfEncode(n: Note, before: seq<byte>, after: seq<byte>)
    requires Encodable(n)
    ensures var all, pos := before + Encode(n) + after, |before|;
      && U32At(all, pos) == |n.name| && U32At(all, pos + 4) == |n.desc| && U32At(all, pos + 8) == n.kind
      && (var d := pos + NOTE_HEADER + RoundUp4(|n.name|); all[d..d + |n.desc|] == n.desc)
  {
    hide Le32, Word;
    var all, pos := before + Encode(n) + after, |before|;
    assert all[pos..pos + 4] == Le32(|n.name|);
    ReadOfLe32(all, pos, |n.name|);
    assert all[pos + 4..pos + 8] == Le32(|n.desc|);
    ReadOfLe32(all, pos + 4, |n.desc|);
    assert all[pos + 8..pos + 12] == Le32(n.kind);
    ReadOfLe32(all, pos + 8, n.kind);
    var d := pos + NOTE_HEADER + RoundUp4(|n.name|);
    assert all[d..d + RoundUp4(|n.desc|)] == Padded(n.desc);
    assert all[d..d + |n.desc|] == Padded(n.desc)[..|n.desc|];
  }

  lemma ReadEncoded(before: seq<byte>, n: Note, after: seq<byte>, w: Width)
    requires Encodable(n)
    ensures ReadNote(before + Encode(n) + after, |before|, w) ==
      if n.kind == NT_GNU_BUILD_ID && n.desc != [] then Found(n.desc) else Next(|before + Encode(n)|)
  {
    hide Le32, U32At, Encode;
    FieldsOfEncode(n, before, after);
    assert Pad(w, |n.name|) == RoundUp4(|n.name|) && Pad(w, |n.desc|) == RoundUp4(|n.desc|);
  }

  lemma {:induction false} ParseFrom(before: seq<byte>, notes: seq<Note>, w: Width)
    requires forall n :: n in notes ==> Encodable(n)
    ensures Parse(before + EncodeAll(notes), |before|, w) == FirstBuildId(notes)
    decreases |notes|
  {
    hide Encode, Encodable, Parse, ReadNote;
    if notes == [] {
      ParseTurn(before, |before|, w);
      assert before + EncodeAll(notes) == before;
    } else {
      var n, rest := notes[0], EncodeAll(notes[1..]);
      assert before + EncodeAll(notes) == before + Encode(n) + rest;
      ReadEncoded(before, n, rest, w);
      ParseTurn(before + EncodeAll(notes), |before|, w);
      ParseFrom(before + Encode(n), notes[1..], w);
    }
  }

  /** Round trip, for both implementations: the parser returns the desc of the first build-ID
      note with a non-empty desc, and nothing when there is none. */
  lemma ParseInvertsLayout(notes: seq<Note>)
    requires forall n :: n in notes ==> Encodable(n)
    ensures Parse(EncodeAll(notes), 0, Bits32) == FirstBuildId(notes)
    ensures Parse(EncodeAll(notes), 0, Unbounded) == FirstBuildId(notes)
  {
    assert [] + EncodeAll(notes) == EncodeAll(notes);
    ParseFrom([], notes, Bits32);
    ParseFrom([], notes, Unbounded);
  }

  /** The two sizes of the note at `pos` are below 2^32 - 3, so that rounding up does not wrap. */
  predicate PlainSizes(notes: seq<byte>, pos: nat)
    requires pos + NOTE_HEADER <= |notes|
  {
    U32At(notes, pos) + 3 < TWO32 && U32At(notes, pos + 4) + 3 < TWO32
  }

  ghost predicate PlainFrom(notes: seq<byte>, pos: nat)
    decreases |notes| - pos
  {
    pos + NOTE_HEADER <= |notes| ==>
      PlainSizes(notes, pos) &&
      match ReadNote(notes, pos, Unbounded)
      case Found(_) => true
      case Next(next) => PlainFrom(notes, next)
  }

  /** On arbitrary bytes the two implementations agree if no note they meet wraps a size. */
  lemma {:induction false} ParsersAgree(notes: seq<byte>, pos: nat)
    requires PlainFrom(notes, pos)
    ensures Parse(notes, pos, Bits32) == Parse(notes, pos, Unbounded)
    decreases |notes| - pos
  {
    hide PlainSizes, ReadNote;
    if pos + NOTE_HEADER <= |notes| {
      TurnsAgree(notes, pos);
      match ReadNote(notes, pos, Unbounded)
      case Found(_) =>
      case Next(next) => ParsersAgree(notes, next);
    }
  }

  lemma TurnsAgree(notes: seq<byte>, pos: nat)
    requires pos + NOTE_HEADER <= |notes| && PlainSizes(notes, pos)
    ensures ReadNote(notes, pos, Bits32) == ReadNote(notes, pos, Unbounded)
  {
    hide Word;
  }

  /** A size within 3 of 2^32 ends the Python parse of a section of at most 4 GiB. */
  lemma {:induction false} WrapEndsPython(notes: seq<byte>, pos: nat)
    requires |notes| <= TWO32 && !PlainFrom(notes, pos)
    ensures Parse(notes, pos, Unbounded) == []
    decreases |notes| - pos
  {
    hide Word;
    if PlainSizes(notes, pos) {
      WrapEndsPython(notes, ReadNote(notes, pos, Unbounded).pos);
    }
  }

  /** The note at `pos`, with 32-bit padding, has type 3 and a non-empty desc in range. */
  predicate HoldsId(notes: seq<byte>, pos: nat)
    requires pos + NOTE_HEADER <= |notes|
  {
    var namesz, descsz := U32At(notes, pos), U32At(notes, pos + 4);
    && U32At(notes, pos + 8) == NT_GNU_BUILD_ID && descsz > 0
    && pos + NOTE_HEADER + Pad(Bits32, namesz) + descsz <= |notes|
  }

  /** Following the sizes modulo 2^32 from `pos` on, one comes to such a note. */
  ghost predicate MeetsId(notes: seq<byte>, pos: nat)
    decreases |notes| - pos
  {
    && pos + NOTE_HEADER <= |notes|
    && (HoldsId(notes, pos)
        || MeetsId(notes, pos + NOTE_HEADER + Pad(Bits32, U32At(notes, pos)) + Pad(Bits32, U32At(notes, pos + 4))))
  }

  lemma {:induction false} MeetsIdIsFound(notes: seq<byte>, pos: nat)
    ensures MeetsId(notes, pos) <==> Parse(notes, pos, Bits32) != []
    decreases |notes| - pos
  {
    hide Word, Pad;
    if pos + NOTE_HEADER <= |notes| && !HoldsId(notes, pos) {
      MeetsIdIsFound(notes, pos + NOTE_HEADER + Pad(Bits32, U32At(notes, pos)) + Pad(Bits32, U32At(notes, pos + 4)));
    }
  }

  /** Exactly when the two agree: no note up to the first build ID has a size that wraps, or,
      reading on past it, the daemon comes to no note that holds an ID. */
  lemma ParsersAgreeExactly(notes: seq<byte>)
    requires |notes| <= TWO32
    ensures Parse(notes, 0, Bits32) == Parse(notes, 0, Unbounded) <==> PlainFrom(notes, 0) || !MeetsId(notes, 0)
  {
    hide Parse, PlainFrom, MeetsId;
    MeetsIdIsFound(notes, 0);
    if PlainFrom(notes, 0) {
      ParsersAgree(notes, 0);
    } else {
      WrapEndsPython(notes, 0);
    }
  }

  /** The daemon does come upon one, in a single note whose name size wraps to nothing. */
  lemma ParsersCanDiffer()
    ensures var notes: seq<byte> := [0xFF, 0xFF, 0xFF, 0xFF, 1, 0, 0, 0, 3, 0, 0, 0, 7];
      Parse(notes, 0, Bits32) == [7] && Parse(notes, 0, Unbounded) == []
  {
    var notes: seq<byte> := [0xFF, 0xFF, 0xFF, 0xFF, 1, 0, 0, 0, 3, 0, 0, 0, 7];
    WordIs(notes[0..4]);
    WordIs(notes[4..8]);
    WordIs(notes[8..12]);
    assert notes[12..13] == [7];
  }
}
