/** Decoding an inotify read buffer (overlay/shim_deploy.py), for the watcher that fronts
    nvapi64.dll again after each finished rewrite. */
module InotifyEvents {

  type Byte = b: int | 0 <= b < 256

  type Word = w: int | 0 <= w < 0x1_0000_0000

  const HEADER_SIZE := 16

  const IN_Q_OVERFLOW: nat := 0x4000
  const IN_IGNORED: nat := 0x8000

  /** "nvapi64.dll" */
  const SHIM_DLL_NAME: seq<Byte> := [110, 118, 97, 112, 105, 54, 52, 46, 100, 108, 108]

  datatype Event = Event(mask: Word, name: seq<Byte>)

  /** What the kernel writes: a header and a NUL-padded name. */
  datatype Record = Record(mask: Word, name: seq<Byte>, padding: nat) {
    predicate Valid() {
      0 !in name && (name != [] ==> padding >= 1)
    }
  }

  function Zeros(n: nat): seq<Byte> {
    seq(n, _ => 0)
  }

  /** Little-endian, as on every host the program runs on. */
  function WordAt(buf: seq<Byte>, offset: nat): Word
    requires offset + 4 <= |buf|
  {
    var b0: int, b1: int, b2: int, b3: int := buf[offset], buf[offset + 1], buf[offset + 2], buf[offset + 3];
    b0 + 256 * b1 + 65536 * b2 + 16777216 * b3
  }

  /** `raw.split(b"\0", 1)[0]` */
  function BeforeNul(raw: seq<Byte>): seq<Byte> {
    if raw == [] || raw[0] == 0 then [] else [raw[0]] + BeforeNul(raw[1..])
  }

  /** A slice as Python takes it: clipped at the end of the buffer. */
  function Clipped(buf: seq<Byte>, start: nat, length: nat): seq<Byte> {
    if start >= |buf| then []
    else if start + length <= |buf| then buf[start..start + length]
    else buf[start..]
  }

  function NameLength(buf: seq<Byte>, offset: nat): nat
    requires offset + HEADER_SIZE <= |buf|
  {
    WordAt(buf, offset + 12)
  }

  function EventAt(buf: seq<Byte>, offset: nat): Event
    requires offset + HEADER_SIZE <= |buf|
  {
    Event(WordAt(buf, offset + 4), BeforeNul(Clipped(buf, offset + HEADER_SIZE, NameLength(buf, offset))))
  }

  function DecodedFrom(buf: seq<Byte>, offset: nat): seq<Event>
    decreases |buf| - offset
  {
    if offset + HEADER_SIZE > |buf| then []
    else [EventAt(buf, offset)] + DecodedFrom(buf, offset + HEADER_SIZE + NameLength(buf, offset))
  }

  lemma DecodeOne(buf: seq<Byte>, offset: nat, events: seq<Event>)
    requires offset + HEADER_SIZE <= |buf|
    ensures events + DecodedFrom(buf, offset)
         == (events + [EventAt(buf, offset)]) + DecodedFrom(buf, offset + HEADER_SIZE + NameLength(buf, offset))
  {
    var event, rest := EventAt(buf, offset), DecodedFrom(buf, offset + HEADER_SIZE + NameLength(buf, offset));
    assert events + ([event] + rest) == (events + [event]) + rest;
  }

  /** `_parse_inotify_events` */
  method ParseEvents(buf: seq<Byte>) returns (events: seq<Event>)
    ensures events == DecodedFrom(buf, 0)
  {
    events := [];
    var offset := 0;
    while offset + HEADER_SIZE <= |buf|
      invariant events + DecodedFrom(buf, offset) == DecodedFrom(buf, 0)
      decreases |buf| - offset
    {
      DecodeOne(buf, offset, events);
      var event, length := ReadEvent(buf, offset);
      offset := offset + HEADER_SIZE + length;
      events := events + [event];
    }
  }

  /** One round of the loop: unpack the header, cut out the name. */
  method ReadEvent(buf: seq<Byte>, offset: nat) returns (event: Event, length: nat)
    requires offset + HEADER_SIZE <= |buf|
    ensures event == EventAt(buf, offset) && length == NameLength(buf, offset)
  {
    var mask := WordAt(buf, offset + 4);
    length := WordAt(buf, offset + 12);
    event := Event(mask, BeforeNul(Clipped(buf, offset + HEADER_SIZE, length)));
  }

  function NextOffset(at: nat, r: Record): nat {
    at + 16 + |r.name| + r.padding
  }

  /** The four bytes of a word, the lowest first. */
  ghost predicate HoldsWord(buf: seq<Byte>, at: nat, w: Word) {
    && at + 4 <= |buf|
    && buf[at] == w % 256 && buf[at + 1] == w / 256 % 256
    && buf[at + 2] == w / 256 / 256 % 256 && buf[at + 3] == w / 256 / 256 / 256
  }

  /** They are read as that word, and as no other. */
  lemma WordIsRead(buf: seq<Byte>, at: nat, w: Word)
    requires at + 4 <= |buf|
    ensures HoldsWord(buf, at, w) <==> WordAt(buf, at) == w
  {
    BytesOfWord(buf[at], buf[at + 1], buf[at + 2], buf[at + 3], w);
  }

  lemma LowestByte(b: int, q: int)
    requires 0 <= b < 256
    ensures (b + 256 * q) % 256 == b && (b + 256 * q) / 256 == q
  {
  }

  lemma BytesOfWord(b0: int, b1: int, b2: int, b3: int, w: Word)
    requires 0 <= b0 < 256 && 0 <= b1 < 256 && 0 <= b2 < 256 && 0 <= b3 < 256
    ensures w == b0 + 256 * b1 + 65536 * b2 + 16777216 * b3
       <==> b0 == w % 256 && b1 == w / 256 % 256 && b2 == w / 256 / 256 % 256 && b3 == w / 256 / 256 / 256
  {
    var q2 := b2 + 256 * b3;
    var q1 := b1 + 256 * q2;
    LowestByte(b0, q1);
    LowestByte(b1, q2);
    LowestByte(b2, b3);
    assert b0 + 256 * b1 + 65536 * b2 + 16777216 * b3 == b0 + 256 * q1;
    WordFromBytes(w);
  }

  lemma WordFromBytes(w: Word)
    ensures w == w % 256 + 256 * (w / 256 % 256 + 256 * (w / 256 / 256 % 256 + 256 * (w / 256 / 256 / 256)))
  {
    var q := w / 256;
    assert w == w % 256 + 256 * q;
    assert q == q % 256 + 256 * (q / 256);
  }

  /** A record as the kernel lays it out: watch, mask, cookie and length, a word each, then the name. */
  ghost predicate HoldsRecord(buf: seq<Byte>, at: nat, r: Record) {
    && r.Valid() && NextOffset(at, r) <= |buf| && |r.name| + r.padding < 0x1_0000_0000
    && HoldsWord(buf, at + 4, r.mask) && HoldsWord(buf, at + 12, |r.name| + r.padding)
    && buf[at + 16..NextOffset(at, r)] == r.name + Zeros(r.padding)
  }

  /** The buffer from `at` on holds these records and then at most a cut-off header. */
  ghost predicate Holds(buf: seq<Byte>, at: nat, records: seq<Record>)
    decreases |records|
  {
    if records == [] then |buf| < at + 16
    else HoldsRecord(buf, at, records[0]) && Holds(buf, NextOffset(at, records[0]), records[1..])
  }

  function EventsOf(records: seq<Record>): seq<Event> {
    if records == [] then [] else [Event(records[0].mask, records[0].name)] + EventsOf(records[1..])
  }

  lemma {:induction false} BeforeNulOfPadded(name: seq<Byte>, padding: nat)
    requires 0 !in name && (name != [] ==> padding >= 1)
    ensures BeforeNul(name + Zeros(padding)) == name
    decreases |name|
  {
    var raw := name + Zeros(padding);
    if name != [] {
      assert raw[1..] == name[1..] + Zeros(padding);
      BeforeNulOfPadded(name[1..], padding);
    } else {
      assert raw == Zeros(padding);
    }
  }

  lemma NameIsClipped(buf: seq<Byte>, at: nat, r: Record)
    requires HoldsRecord(buf, at, r)
    ensures at + HEADER_SIZE <= |buf| && at + HEADER_SIZE + NameLength(buf, at) == NextOffset(at, r)
    ensures Clipped(buf, at + HEADER_SIZE, NameLength(buf, at)) == r.name + Zeros(r.padding)
  {
    WordIsRead(buf, at + 12, |r.name| + r.padding);
    var from, to := at + HEADER_SIZE, NextOffset(at, r);
    assert NameLength(buf, at) == to - from;
    assert from + (to - from) == to;
    if from >= |buf| {
      assert buf[from..to] == [];
    }
  }

  lemma NameIsRead(buf: seq<Byte>, at: nat, r: Record)
    requires HoldsRecord(buf, at, r) && at + HEADER_SIZE <= |buf|
    requires Clipped(buf, at + HEADER_SIZE, NameLength(buf, at)) == r.name + Zeros(r.padding)
    ensures EventAt(buf, at) == Event(r.mask, r.name)
  {
    WordIsRead(buf, at + 4, r.mask);
    BeforeNulOfPadded(r.name, r.padding);
  }

  lemma {:induction false} DecodeFirst(buf: seq<Byte>, at: nat, event: Event, next: nat)
    requires at + HEADER_SIZE <= |buf| && EventAt(buf, at) == event && at + HEADER_SIZE + NameLength(buf, at) == next
    ensures DecodedFrom(buf, at) == [event] + DecodedFrom(buf, next)
  {
    var rest := DecodedFrom(buf, next);
    DecodeOne(buf, at, []);
    assert [] + DecodedFrom(buf, at) == DecodedFrom(buf, at);
    assert ([] + [event]) + rest == [event] + rest;
  }

  lemma {:induction false} RecordIsDecoded(buf: seq<Byte>, at: nat, r: Record)
    requires HoldsRecord(buf, at, r)
    ensures DecodedFrom(buf, at) == [Event(r.mask, r.name)] + DecodedFrom(buf, NextOffset(at, r))
  {
    NameIsClipped(buf, at, r);
    NameIsRead(buf, at, r);
    DecodeFirst(buf, at, Event(r.mask, r.name), NextOffset(at, r));
  }

  /** Every record the kernel wrote comes back, in order; a cut-off header at the end is ignored. */
  lemma {:induction false} EveryRecordIsDecoded(buf: seq<Byte>, at: nat, records: seq<Record>)
    requires Holds(buf, at, records)
    ensures DecodedFrom(buf, at) == EventsOf(records)
    decreases |records|
  {
    if records != [] {
      RecordIsDecoded(buf, at, records[0]);
      EveryRecordIsDecoded(buf, NextOffset(at, records[0]), records[1..]);
    }
  }

  function BytesOf(w: Word): seq<Byte> {
    [w % 256, w / 256 % 256, w / 256 / 256 % 256, w / 256 / 256 / 256]
  }

  /** One record as the kernel writes it; the watch and the cookie are not looked at. */
  function Written(r: Record, watch: Word, cookie: Word): seq<Byte>
    requires |r.name| + r.padding < 0x1_0000_0000
  {
    BytesOf(watch) + BytesOf(r.mask) + BytesOf(cookie) + BytesOf(|r.name| + r.padding) + (r.name + Zeros(r.padding))
  }

  function WrittenAll(records: seq<Record>, watch: Word, cookie: Word): seq<Byte>
    requires forall r | r in records :: |r.name| + r.padding < 0x1_0000_0000
  {
    if records == [] then []
    else
      assert forall r | r in records[1..] :: r in records;
      Written(records[0], watch, cookie) + WrittenAll(records[1..], watch, cookie)
  }

  lemma WrittenIsRecord(before: seq<Byte>, r: Record, watch: Word, cookie: Word, after: seq<Byte>)
    requires r.Valid() && |r.name| + r.padding < 0x1_0000_0000
    ensures HoldsRecord(before + Written(r, watch, cookie) + after, |before|, r)
  {
    var buf, at := before + Written(r, watch, cookie) + after, |before|;
    var header := BytesOf(watch) + BytesOf(r.mask) + BytesOf(cookie) + BytesOf(|r.name| + r.padding);
    assert Written(r, watch, cookie) == header + (r.name + Zeros(r.padding));
    assert forall k | 0 <= k < 16 :: buf[at + k] == header[k];
    assert header[4..8] == BytesOf(r.mask) && header[12..16] == BytesOf(|r.name| + r.padding);
    assert forall k | 0 <= k < 4 :: header[4 + k] == header[4..8][k] && header[12 + k] == header[12..16][k];
    assert buf[at + 16..NextOffset(at, r)] == r.name + Zeros(r.padding);
  }

  lemma {:induction false} WrittenIsHeld(before: seq<Byte>, records: seq<Record>, watch: Word, cookie: Word,
                                         cut: seq<Byte>)
    requires forall r | r in records :: r.Valid() && |r.name| + r.padding < 0x1_0000_0000
    requires |cut| < 16
    ensures Holds(before + WrittenAll(records, watch, cookie) + cut, |before|, records)
    decreases |records|
  {
    var buf := before + WrittenAll(records, watch, cookie) + cut;
    if records != [] {
      var r, rest := records[0], records[1..];
      assert forall q | q in rest :: q in records;
      var written := Written(r, watch, cookie);
      assert buf == before + written + (WrittenAll(rest, watch, cookie) + cut);
      WrittenIsRecord(before, r, watch, cookie, WrittenAll(rest, watch, cookie) + cut);
      assert buf == (before + written) + WrittenAll(rest, watch, cookie) + cut;
      assert |before + written| == NextOffset(|before|, r);
      WrittenIsHeld(before + written, rest, watch, cookie, cut);
    }
  }

  /** What the kernel writes is read back: every record, in order, whatever cut-off header follows. */
  lemma {:induction false} WrittenIsReadBack(records: seq<Record>, watch: Word, cookie: Word, cut: seq<Byte>)
    requires forall r | r in records :: r.Valid() && |r.name| + r.padding < 0x1_0000_0000
    requires |cut| < 16
    ensures DecodedFrom(WrittenAll(records, watch, cookie) + cut, 0) == EventsOf(records)
  {
    var written := WrittenAll(records, watch, cookie);
    WrittenIsHeld([], records, watch, cookie, cut);
    HeldIsDecoded([] + written + cut, written + cut, records);
  }

  lemma HeldIsDecoded(held: seq<Byte>, buf: seq<Byte>, records: seq<Record>)
    requires held == buf && Holds(held, 0, records)
    ensures DecodedFrom(buf, 0) == EventsOf(records)
  {
    EveryRecordIsDecoded(buf, 0, records);
  }

  predicate HasBit(mask: Word, bit: nat)
    requires bit > 0
  {
    mask / bit % 2 == 1
  }

  /** An event after which the DLL has to be looked at again. */
  predicate Relevant(e: Event) {
    HasBit(e.mask, IN_Q_OVERFLOW) || HasBit(e.mask, IN_IGNORED) || e.name == SHIM_DLL_NAME
  }

  method AnyRelevant(events: seq<Event>) returns (changed: bool)
    ensures changed <==> exists i | 0 <= i < |events| :: Relevant(events[i])
  {
    changed := false;
    for i := 0 to |events|
      invariant changed <==> exists m | 0 <= m < i :: Relevant(events[m])
    {
      if HasBit(events[i].mask, IN_Q_OVERFLOW) {
        changed := true;
      }
      if HasBit(events[i].mask, IN_IGNORED) {
        changed := true;
      }
      if events[i].name == SHIM_DLL_NAME {
        changed := true;
      }
    }
  }

  /** The queue overflowed, the watch is gone, or the file is "nvapi64.dll". */
  ghost predicate Concerns(mask: Word, name: seq<Byte>) {
    || mask / 16384 % 2 == 1 || mask / 32768 % 2 == 1
    || (|name| == |"nvapi64.dll"| && forall i | 0 <= i < |name| :: name[i] == "nvapi64.dll"[i] as int)
  }

  lemma RelevantIffConcerns(e: Event)
    ensures Relevant(e) <==> Concerns(e.mask, e.name)
  {
    var dll := "nvapi64.dll";
    assert forall i | 0 <= i < |dll| :: SHIM_DLL_NAME[i] == dll[i] as int;
    if Concerns(e.mask, e.name) && !HasBit(e.mask, IN_Q_OVERFLOW) && !HasBit(e.mask, IN_IGNORED) {
      assert e.name == SHIM_DLL_NAME;
    }
  }

  /** `_Nvapi64Notifier.drain`: no lost queue, dropped watch or finished rewrite is overlooked,
      and nothing else wakes the watcher. */
  method Drain(buf: seq<Byte>, ghost records: seq<Record>) returns (changed: bool)
    requires Holds(buf, 0, records)
    ensures changed <==> exists i | 0 <= i < |records| :: Concerns(records[i].mask, records[i].name)
  {
    var events := ParseEvents(buf);
    EveryRecordIsDecoded(buf, 0, records);
    EventsByIndex(records);
    changed := AnyRelevant(events);
    forall i | 0 <= i < |records|
      ensures Relevant(events[i]) <==> Concerns(records[i].mask, records[i].name)
    {
      RelevantIffConcerns(events[i]);
    }
  }

  lemma {:induction false} EventsByIndex(records: seq<Record>)
    ensures |EventsOf(records)| == |records|
    ensures forall i | 0 <= i < |records| :: EventsOf(records)[i] == Event(records[i].mask, records[i].name)
    decreases |records|
  {
    if records != [] {
      EventsByIndex(records[1..]);
    }
  }
}
