/** Decoding of a raw inotify buffer in daemon/watcher.cpp. */
module InotifyEvents {
  import opened Bytes

  const EVENT_SIZE := 16
  const MASK_OFF := 4
  const LEN_OFF := 12
  const IN_MOVED_TO: u32 := 0x80

  const DMP_SUFFIX: seq<byte> := Ascii(".dmp")

  /** `(mask & IN_MOVED_TO) != 0` */
  predicate MovedTo(mask: u32) {
    mask / IN_MOVED_TO % 2 == 1
  }

  // ----- Records

  /** One inotify_event: a name may be absent, else it is NUL-terminated and padded with NULs. */
  datatype Event = Event(wd: u32, mask: u32, cookie: u32, name: seq<byte>, padding: nat)

  predicate IsEvent(e: Event) {
    && 0 !in e.name && |e.name| + e.padding < TWO32
    && (e.name != [] ==> e.padding > 0)
  }

  function NameField(e: Event): (r: seq<byte>)
    ensures |r| == |e.name| + e.padding
  {
    e.name + seq(e.padding, _ => 0)
  }

  function Encode(e: Event): (r: seq<byte>)
    requires IsEvent(e)
    ensures |r| == EVENT_SIZE + |e.name| + e.padding
  {
    Le32(e.wd) + Le32(e.mask) + Le32(e.cookie) + Le32(|e.name| + e.padding) + NameField(e)
  }

  function EncodeAll(es: seq<Event>): seq<byte>
    requires forall e :: e in es ==> IsEvent(e)
  {
    if es == [] then [] else Encode(es[0]) + EncodeAll(es[1..])
  }

  // ----- What should be enqueued

  /** A moved-to event, bit 7 of the mask, of a name that ends in ".dmp". */
  predicate Wanted(e: Event) {
    && e.mask / 128 % 2 == 1
    && |e.name| >= 4 && e.name[|e.name| - 4..] == Ascii(".dmp")
  }

  function PathsOf(dir: seq<byte>, es: seq<Event>): seq<seq<byte>> {
    if es == [] then []
    else (if Wanted(es[0]) then [dir + Ascii("/") + es[0].name] else []) + PathsOf(dir, es[1..])
  }

  // ----- The decoder

  predicate EndsWith(s: seq<byte>, suffix: seq<byte>) {
    |s| >= |suffix| && s[|s| - |suffix|..] == suffix
  }

  /** pending_dir + "/" + name */
  function PathOf(dir: seq<byte>, name: seq<byte>): seq<byte> {
    dir + Ascii("/") + name
  }

  /** strnlen over the `len` bytes at `off`. */
  function NameLen(buf: seq<byte>, off: nat, len: nat): (n: nat)
    requires off + len <= |buf|
    ensures n <= len && forall k :: off <= k < off + n ==> buf[k] != 0
    ensures n < len ==> buf[off + n] == 0
    decreases len
  {
    if len == 0 || buf[off] == 0 then 0
    else 1 + NameLen(buf, off + 1, len - 1)
  }

  /** The record at `off` lies in the buffer and its name field is empty or contains a NUL:
      what the kernel guarantees, and what the C string functions rely on. */
  predicate RecordFits(buf: seq<byte>, off: nat) {
    && off + EVENT_SIZE <= |buf|
    && var len := U32At(buf, off + LEN_OFF);
       off + EVENT_SIZE + len <= |buf|
       && (len > 0 ==> NameLen(buf, off + EVENT_SIZE, len) < len)
  }

  ghost predicate Tiled(buf: seq<byte>, off: nat)
    decreases |buf| - off
  {
    off == |buf| || (RecordFits(buf, off) && Tiled(buf, off + EVENT_SIZE + U32At(buf, off + LEN_OFF)))
  }

  /** The path that the record at `off` contributes. */
  function Decode(dir: seq<byte>, buf: seq<byte>, off: nat): seq<seq<byte>>
    requires RecordFits(buf, off)
  {
    var mask, len := U32At(buf, off + MASK_OFF), U32At(buf, off + LEN_OFF);
    var start := off + EVENT_SIZE;
    var name := buf[start..start + NameLen(buf, start, len)];
    if !MovedTo(mask) || len == 0 || !EndsWith(name, DMP_SUFFIX) then [] else [PathOf(dir, name)]
  }

  function DecodeAll(dir: seq<byte>, buf: seq<byte>, off: nat): seq<seq<byte>>
    requires Tiled(buf, off)
    decreases |buf| - off
  {
    if off == |buf| then []
    else Decode(dir, buf, off) + DecodeAll(dir, buf, off + EVENT_SIZE + U32At(buf, off + LEN_OFF))
  }

  lemma {:induction false} FieldsOfEncode(before: seq<byte>, e: Event, after: seq<byte>)
    requires IsEvent(e)
    ensures var buf, off := before + Encode(e) + after, |before|;
      && U32At(buf, off + MASK_OFF) == e.mask
      && U32At(buf, off + LEN_OFF) == |e.name| + e.padding
      && buf[off + EVENT_SIZE..off + EVENT_SIZE + |e.name| + e.padding] == NameField(e)
  {
    hide Le32, Word, NameField;
    var buf, off := before + Encode(e) + after, |before|;
    assert buf[off + 4..off + 8] == Le32(e.mask);
    ReadOfLe32(buf, off + 4, e.mask);
    assert buf[off + 12..off + 16] == Le32(|e.name| + e.padding);
    ReadOfLe32(buf, off + 12, |e.name| + e.padding);
    assert buf[off + 16..off + 16 + |e.name| + e.padding] == NameField(e);
  }

  lemma NameOfField(buf: seq<byte>, start: nat, e: Event)
    requires IsEvent(e) && start + |e.name| + e.padding <= |buf|
    requires buf[start..start + |e.name| + e.padding] == NameField(e)
    ensures NameLen(buf, start, |e.name| + e.padding) == |e.name|
    ensures buf[start..start + |e.name|] == e.name
  {
    var len := |e.name| + e.padding;
    var field := buf[start..start + len];
    assert forall k :: 0 <= k < len ==> field[k] == buf[start + k];
    assert forall k :: 0 <= k < |e.name| ==> buf[start + k] == e.name[k] && e.name[k] in e.name;
    assert e.padding > 0 ==> buf[start + |e.name|] == field[|e.name|] == 0;
    assert buf[start..start + |e.name|] == field[..|e.name|];
  }

  lemma DecodesRecord(dir: seq<byte>, before: seq<byte>, e: Event, after: seq<byte>)
    requires IsEvent(e)
    ensures var buf, off := before + Encode(e) + after, |before|;
      && RecordFits(buf, off)
      && off + EVENT_SIZE + U32At(buf, off + LEN_OFF) == |before + Encode(e)|
      && Decode(dir, buf, off) == if Wanted(e) then [dir + Ascii("/") + e.name] else []
  {
    hide Le32, Word, NameField, Encode;
    var buf, start := before + Encode(e) + after, |before| + EVENT_SIZE;
    FieldsOfEncode(before, e, after);
    NameOfField(buf, start, e);
  }

  /** Decoding inverts the layout: of the records laid end to end, exactly the moved-to ones
      whose name ends in ".dmp" are enqueued, in order, and the loop ends at the buffer's end. */
  lemma {:induction false} DecodeInvertsLayout(dir: seq<byte>, before: seq<byte>, es: seq<Event>)
    requires forall e :: e in es ==> IsEvent(e)
    ensures var buf := before + EncodeAll(es);
      Tiled(buf, |before|) && DecodeAll(dir, buf, |before|) == PathsOf(dir, es)
    decreases |es|
  {
    hide Encode, Decode, Wanted, IsEvent, RecordFits, U32At;
    var buf := before + EncodeAll(es);
    if es == [] {
      assert buf == before;
    } else {
      var rest := EncodeAll(es[1..]);
      var next := before + Encode(es[0]);
      assert buf == next + rest;
      DecodesRecord(dir, before, es[0], rest);
      DecodeInvertsLayout(dir, next, es[1..]);
    }
  }
}
