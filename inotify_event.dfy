/**
 * The inotify event stream as the kernel writes it (inotify(7)): a sequence of
 * records, each a fixed 16-byte header of four 32-bit fields (wd, mask, cookie,
 * len, in host byte order, little-endian here) followed by exactly len bytes of
 * NUL-padded name.  The reader overlays struct inotify_event on the buffer, so a
 * record is modelled as its raw header words plus its name bytes; the numeric
 * readings of the words are separate functions.  Parse is what nih_file_reader
 * consumes from one delivery.
 */
module InotifyEvent {
  import opened Wrappers

  newtype byte = b: int | 0 <= b < 256

  /** sizeof (struct inotify_event): wd, mask, cookie and len. */
  const HeaderSize: nat := 16
  const U32Limit: nat := 0x1_0000_0000
  const I32Limit: int := 0x8000_0000

  /** Event bits of inotify(7) that the watch code tests or asks for. */
  const IN_MODIFY: bv32 := 0x0000_0002
  const IN_MOVED_FROM: bv32 := 0x0000_0040
  const IN_MOVED_TO: bv32 := 0x0000_0080
  const IN_CREATE: bv32 := 0x0000_0100
  const IN_DELETE: bv32 := 0x0000_0200
  const IN_MOVE_SELF: bv32 := 0x0000_0800
  const IN_Q_OVERFLOW: bv32 := 0x0000_4000
  const IN_IGNORED: bv32 := 0x0000_8000
  const IN_MOVE: bv32 := IN_MOVED_FROM | IN_MOVED_TO

  /** One 32-bit header field, as its four bytes in memory order. */
  datatype Word = Word(b0: byte, b1: byte, b2: byte, b3: byte)

  /** The uint32_t reading of a word (little-endian). */
  function Unsigned(w: Word): (n: nat)
    ensures n < U32Limit
  {
    w.b0 as nat + 0x100 * (w.b1 as nat) + 0x1_0000 * (w.b2 as nat) + 0x100_0000 * (w.b3 as nat)
  }

  /** The int32_t reading of a word (two's complement). */
  function Signed(w: Word): (x: int)
    ensures -I32Limit <= x < I32Limit
    ensures x >= 0 <==> w.b3 < 0x80
  {
    if Unsigned(w) < I32Limit then Unsigned(w) else Unsigned(w) - U32Limit
  }

  function WordBytes(w: Word): (r: seq<byte>)
    ensures |r| == 4
  {
    [w.b0, w.b1, w.b2, w.b3]
  }

  function WordAt(b: seq<byte>, i: nat): (w: Word)
    requires i + 4 <= |b|
  {
    Word(b[i], b[i + 1], b[i + 2], b[i + 3])
  }

  /** One record: the header's wd, mask, cookie and len words and the len bytes of name that follow. */
  datatype Event = Event(wd: Word, mask: Word, cookie: Word, len: Word, name: seq<byte>)

  /** A record as the kernel writes it: len counts exactly the name bytes. */
  predicate WellFormed(e: Event) {
    Unsigned(e.len) == |e.name|
  }

  /** The watch descriptor the record is for. */
  function Wd(e: Event): int { Signed(e.wd) }

  /** The event bits of the record. */
  function Mask(e: Event): nat { Unsigned(e.mask) }

  /** The event bits of the record, as the uint32_t the watcher receives. */
  function MaskBits(e: Event): bv32 { Mask(e) as bv32 }

  /** The rename cookie of the record. */
  function Cookie(e: Event): nat { Unsigned(e.cookie) }

  /** The header and name of one record, in memory order. */
  function Encode(e: Event): (r: seq<byte>)
    ensures |r| == HeaderSize + |e.name|
  {
    WordBytes(e.wd) + WordBytes(e.mask) + WordBytes(e.cookie) + WordBytes(e.len) + e.name
  }

  function EncodeAll(es: seq<Event>): (r: seq<byte>)
  {
    if es == [] then [] else Encode(es[0]) + EncodeAll(es[1..])
  }

  /** A whole record — header and all of its name — is at the front of buf. */
  predicate HasRecord(buf: seq<byte>) {
    |buf| >= HeaderSize && |buf| >= HeaderSize + Unsigned(WordAt(buf, 12))
  }

  /** sizeof (struct inotify_event) + event->len for the record at the front of buf. */
  function RecordSize(buf: seq<byte>): (n: nat)
    requires |buf| >= HeaderSize
    ensures n >= HeaderSize
  {
    HeaderSize + Unsigned(WordAt(buf, 12))
  }

  function DecodeRecord(buf: seq<byte>): (e: Event)
    requires HasRecord(buf)
    ensures WellFormed(e) && HeaderSize + |e.name| == RecordSize(buf)
  {
    Event(WordAt(buf, 0), WordAt(buf, 4), WordAt(buf, 8), WordAt(buf, 12), buf[HeaderSize..RecordSize(buf)])
  }

  /** The records taken from one delivery, and the number of bytes they occupy. */
  datatype Parsed = Parsed(events: seq<Event>, consumed: nat)

  /**
   * What nih_file_reader takes from a delivery: whole records from the front,
   * stopping at the first point where fewer than a header, or fewer than the
   * header plus its len, bytes remain.
   */
  function Parse(buf: seq<byte>): (p: Parsed)
    ensures p.consumed <= |buf|
    decreases |buf|
  {
    if !HasRecord(buf) then Parsed([], 0)
    else
      var n := RecordSize(buf);
      var rest := Parse(buf[n..]);
      Parsed([DecodeRecord(buf)] + rest.events, n + rest.consumed)
  }

  /**
   * The name argument a watcher receives: NULL when len is zero, otherwise the
   * C string at event->name, i.e. the bytes before the first NUL.
   */
  function NameArg(e: Event): (r: Option<string>)
    ensures r.None? <==> |e.name| == 0
    ensures r.Some? ==> |r.value| <= |e.name| && '\0' !in r.value
  {
    if |e.name| == 0 then None else Some(CString(e.name))
  }

  function CString(bs: seq<byte>): (s: string)
    ensures |s| <= |bs| && '\0' !in s
    ensures forall i :: 0 <= i < |s| ==> s[i] as int == bs[i] as int
    ensures |s| < |bs| ==> bs[|s|] == 0
  {
    if bs == [] || bs[0] == 0 then [] else [(bs[0] as int) as char] + CString(bs[1..])
  }

  /** One step of Parse on a delivery that starts with a whole record. */
  lemma ParseStep(buf: seq<byte>)
    requires HasRecord(buf)
    ensures Parse(buf) == Parsed([DecodeRecord(buf)] + Parse(buf[RecordSize(buf)..]).events,
                                 RecordSize(buf) + Parse(buf[RecordSize(buf)..]).consumed)
  {
  }

  /** Decoding the front of an encoded record gives the record back, and its exact size. */
  lemma DecodeEncoded(e: Event, tail: seq<byte>)
    requires WellFormed(e)
    ensures HasRecord(Encode(e) + tail)
    ensures RecordSize(Encode(e) + tail) == |Encode(e)|
    ensures DecodeRecord(Encode(e) + tail) == e
    ensures (Encode(e) + tail)[|Encode(e)|..] == tail
  {
    var b := Encode(e) + tail;
    assert WordAt(b, 0) == e.wd && WordAt(b, 4) == e.mask;
    assert WordAt(b, 8) == e.cookie && WordAt(b, 12) == e.len;
    assert b[HeaderSize..HeaderSize + |e.name|] == e.name;
  }

  /** Decoding is inverse to encoding in the other direction: a record re-encodes to the bytes it came from. */
  lemma EncodeDecoded(buf: seq<byte>)
    requires HasRecord(buf)
    ensures Encode(DecodeRecord(buf)) == buf[..RecordSize(buf)]
  {
    var n := RecordSize(buf);
    assert buf[..n] == buf[0..4] + buf[4..8] + buf[8..12] + buf[12..16] + buf[16..n];
  }

  /** A delivery holding only whole records is parsed completely, into exactly those records. */
  lemma {:induction false} ParseWholeRecords(es: seq<Event>)
    requires forall i :: 0 <= i < |es| ==> WellFormed(es[i])
    ensures Parse(EncodeAll(es)).events == es
    ensures Parse(EncodeAll(es)).consumed == |EncodeAll(es)|
  {
    if es != [] {
      var rest := EncodeAll(es[1..]);
      ParseCons(es[0], rest);
      ParseWholeRecords(es[1..]);
    }
  }

  /** Parsing a delivery that starts with one encoded record. */
  lemma ParseCons(e: Event, rest: seq<byte>)
    requires WellFormed(e)
    ensures Parse(Encode(e) + rest).events == [e] + Parse(rest).events
    ensures Parse(Encode(e) + rest).consumed == |Encode(e)| + Parse(rest).consumed
  {
    DecodeEncoded(e, rest);
    ParseStep(Encode(e) + rest);
  }

  /**
   * Round trip: parsing whole encoded records, followed by anything, yields
   * exactly those records and then whatever the rest yields.
   */
  lemma ParseEncoded(es: seq<Event>, tail: seq<byte>)
    requires forall i :: 0 <= i < |es| ==> WellFormed(es[i])
    ensures Parse(EncodeAll(es) + tail).events == es + Parse(tail).events
    ensures Parse(EncodeAll(es) + tail).consumed == |EncodeAll(es)| + Parse(tail).consumed
  {
    var a := EncodeAll(es);
    ParseWholeRecords(es);
    ParseSplit(a, tail);
    assert a[|a|..] + tail == tail;
  }

  /**
   * The consumed prefix is a whole number of records — exactly the encoding of
   * the records returned, each well formed — and no whole record is left behind.
   */
  lemma {:induction false} ParseConsumesWholeRecords(buf: seq<byte>)
    ensures forall i :: 0 <= i < |Parse(buf).events| ==> WellFormed(Parse(buf).events[i])
    ensures buf[..Parse(buf).consumed] == EncodeAll(Parse(buf).events)
    ensures !HasRecord(buf[Parse(buf).consumed..])
    decreases |buf|
  {
    if HasRecord(buf) {
      var n := RecordSize(buf);
      var e := DecodeRecord(buf);
      ParseStep(buf);
      ParseConsumesWholeRecords(buf[n..]);
      var rest := Parse(buf[n..]);
      EncodeDecoded(buf);
      EncodeAllPrepend(e, rest.events);
      SplitAt(buf, n, rest.consumed);
    } else {
      assert buf[0..] == buf;
    }
  }

  lemma EncodeAllPrepend(e: Event, es: seq<Event>)
    ensures EncodeAll([e] + es) == Encode(e) + EncodeAll(es)
  {
    assert ([e] + es)[1..] == es;
  }

  /** Cutting a sequence after n and then m more elements. */
  lemma SplitAt<T>(s: seq<T>, n: nat, m: nat)
    requires n + m <= |s|
    ensures s[..n + m] == s[..n] + s[n..][..m]
    ensures s[n + m..] == s[n..][m..]
  {
  }

  /** Bytes beyond a whole record do not change how the record is read. */
  lemma RecordPrefix(x: seq<byte>, y: seq<byte>)
    requires HasRecord(x) && |x| <= |y| && y[..|x|] == x
    ensures HasRecord(y) && RecordSize(y) == RecordSize(x) && DecodeRecord(y) == DecodeRecord(x)
  {
    assert forall i :: 0 <= i < |x| ==> y[i] == x[i] by {
      forall i | 0 <= i < |x| ensures y[i] == x[i] {
        assert y[..|x|][i] == y[i];
      }
    }
    assert y[HeaderSize..RecordSize(x)] == x[HeaderSize..RecordSize(x)];
  }

  /**
   * Delivery-boundary invariance: parsing a, keeping its unconsumed tail and
   * parsing that tail together with the next delivery b yields the same
   * records, and consumes the same bytes, as parsing a + b in one go —
   * wherever a ends.
   */
  lemma {:induction false} ParseSplit(a: seq<byte>, b: seq<byte>)
    ensures Parse(a + b).events == Parse(a).events + Parse(a[Parse(a).consumed..] + b).events
    ensures Parse(a + b).consumed == Parse(a).consumed + Parse(a[Parse(a).consumed..] + b).consumed
    decreases |a|
  {
    if HasRecord(a) {
      var n := RecordSize(a);
      RecordPrefix(a, a + b);
      var rest := Parse(a[n..]);
      assert Parse(a) == Parsed([DecodeRecord(a)] + rest.events, n + rest.consumed);
      assert (a + b)[n..] == a[n..] + b;
      assert Parse(a + b) == Parsed([DecodeRecord(a)] + Parse(a[n..] + b).events, n + Parse(a[n..] + b).consumed);
      ParseSplit(a[n..], b);
      assert a[n..][rest.consumed..] == a[n + rest.consumed..];
    } else {
      assert a[0..] == a;
    }
  }
}
