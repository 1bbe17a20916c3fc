/** The framing of `RemoteCommentReceiver` in src/environment/bilibili.ts: every message on
    the comment socket is a 16-byte big-endian header followed by a payload. The header
    layout is the receiver's `frameDefinitionEntries` table. The payload is JSON text
    encoded as UTF-8, which the model keeps as opaque bytes. */
module CommentFrames {
  import opened Wrappers
  import opened JsNumbers

  type byte = b: int | 0 <= b < 0x100

  /** One row of `frameDefinitionEntries`. */
  datatype FrameEntry = FrameEntry(key: string, size: nat, offset: nat, value: int)

  /** The table as the class declares it; `encode` later overwrites the value of the third
      entry. */
  const DEFAULT_ENTRIES: seq<FrameEntry> := [
    FrameEntry("headerLen", 2, 4, 16),
    FrameEntry("ver", 2, 6, 1),
    FrameEntry("op", 4, 8, 2),
    FrameEntry("seq", 4, 12, 1)
  ]

  const HEADER_SIZE: nat := 16

  /** The operations `parse` gives a body to. */
  const OP_MESSAGES: int := 5
  const OP_HEARTBEAT_REPLY: int := 3

  /** The entry table up to the value of the operation entry. */
  predicate WellFormedEntries(entries: seq<FrameEntry>)
  {
    |entries| == 4
    && entries[0] == DEFAULT_ENTRIES[0] && entries[1] == DEFAULT_ENTRIES[1]
    && entries[3] == DEFAULT_ENTRIES[3]
    && entries[2] == DEFAULT_ENTRIES[2].(value := entries[2].value)
  }

  /** The bytes `DataView.setInt32` writes: the value modulo 2^32, most significant byte
      first. */
  function Int32BE(v: int): (r: seq<byte>)
    ensures |r| == 4
  {
    var u := v % TWO_32;
    [((u / 0x100) / 0x100) / 0x100, ((u / 0x100) / 0x100) % 0x100, (u / 0x100) % 0x100, u % 0x100]
  }

  /** The bytes `DataView.setInt16` writes: the value modulo 2^16, most significant byte
      first. */
  function Int16BE(v: int): (r: seq<byte>)
    ensures |r| == 2
  {
    var u := v % TWO_16;
    [u / 0x100, u % 0x100]
  }

  /** The unsigned value of four big-endian bytes. */
  function Word32(b: seq<byte>): (r: int)
    requires |b| == 4
    ensures 0 <= r < TWO_32
  {
    ((b[0] as int * 0x100 + b[1]) * 0x100 + b[2]) * 0x100 + b[3]
  }

  /** The unsigned value of two big-endian bytes. */
  function Word16(b: seq<byte>): (r: int)
    requires |b| == 2
    ensures 0 <= r < TWO_16
  {
    b[0] as int * 0x100 + b[1]
  }

  /** `DataView.getInt32(offset)`; `None` where it throws a range error. */
  function GetInt32(buffer: seq<byte>, offset: nat): (r: Option<int>)
    ensures r.Some? <==> offset + 4 <= |buffer|
    ensures r.Some? ==> -TWO_31 <= r.value < TWO_31
  {
    if offset + 4 <= |buffer| then Some(ToInt32(Word32(buffer[offset..offset + 4]))) else None
  }

  /** `DataView.getInt16(offset)`; `None` where it throws a range error. */
  function GetInt16(buffer: seq<byte>, offset: nat): (r: Option<int>)
    ensures r.Some? <==> offset + 2 <= |buffer|
    ensures r.Some? ==> -TWO_15 <= r.value < TWO_15
  {
    if offset + 2 <= |buffer| then Some(ToInt16(Word16(buffer[offset..offset + 2]))) else None
  }

  /** Reading back the four bytes written for a value gives the value as a signed 32-bit
      integer. */
  lemma Int32RoundTrip(v: int)
    ensures Word32(Int32BE(v)) == v % TWO_32
    ensures GetInt32(Int32BE(v), 0) == Some(ToInt32(v))
  {
    var u := v % TWO_32;
    var q1 := u / 0x100;
    var q2 := q1 / 0x100;
    assert u == q1 * 0x100 + u % 0x100;
    assert q1 == q2 * 0x100 + q1 % 0x100;
    assert q2 == (q2 / 0x100) * 0x100 + q2 % 0x100;
    assert Int32BE(v)[..4] == Int32BE(v);
  }

  /** Writing a value read from four bytes gives the same bytes back. */
  lemma Int32BytesRoundTrip(b: seq<byte>)
    requires |b| == 4
    ensures Int32BE(GetInt32(b, 0).value) == b
  {
    var w := Word32(b);
    assert b[0..4] == b;
    assert ToInt32(w) % TWO_32 == w;
    var q1 := w / 0x100;
    var q2 := q1 / 0x100;
    assert q1 == (b[0] as int * 0x100 + b[1]) * 0x100 + b[2];
    assert q2 == b[0] as int * 0x100 + b[1];
  }

  /** Reading back the two bytes written for a value gives the value as a signed 16-bit
      integer. */
  lemma Int16RoundTrip(v: int)
    ensures Word16(Int16BE(v)) == v % TWO_16
    ensures GetInt16(Int16BE(v), 0) == Some(ToInt16(v))
  {
    assert Int16BE(v)[..2] == Int16BE(v);
  }

  /** Writing a value read from two bytes gives the same bytes back. */
  lemma Int16BytesRoundTrip(b: seq<byte>)
    requires |b| == 2
    ensures Int16BE(GetInt16(b, 0).value) == b
  {
    assert b[0..2] == b;
    assert ToInt16(Word16(b)) % TWO_16 == Word16(b);
  }

  /** A buffer with `bytes` written at `offset`. */
  function Put(buffer: seq<byte>, offset: nat, bytes: seq<byte>): (r: seq<byte>)
    requires offset + |bytes| <= |buffer|
    ensures |r| == |buffer|
    ensures forall i :: 0 <= i < |buffer| ==>
              r[i] == if offset <= i < offset + |bytes| then bytes[i - offset] else buffer[i]
  {
    buffer[..offset] + bytes + buffer[offset + |bytes|..]
  }

  /** The bytes an entry of the table writes, if any. */
  function EntryBytes(entry: FrameEntry): (r: seq<byte>)
    ensures |r| == EntrySize(entry)
  {
    if entry.size == 4 then Int32BE(entry.value)
    else if entry.size == 2 then Int16BE(entry.value)
    else []
  }

  /** The number of bytes an entry writes and reads. */
  function EntrySize(entry: FrameEntry): nat
  {
    if entry.size == 4 || entry.size == 2 then entry.size else 0
  }

  predicate EntryFits(entry: FrameEntry, length: nat)
  {
    entry.offset + EntrySize(entry) <= length
  }

  /** One step of the `forEach` in `encode`: `setInt32` for a 4-byte entry, `setInt16` for a
      2-byte entry, nothing otherwise; `None` when the write throws a range error. */
  function WriteEntry(buffer: seq<byte>, entry: FrameEntry): (r: Option<seq<byte>>)
    ensures r.Some? ==> |r.value| == |buffer|
  {
    if EntrySize(entry) == 0 then Some(buffer)
    else if EntryFits(entry, |buffer|) then Some(Put(buffer, entry.offset, EntryBytes(entry)))
    else None
  }

  /** The buffer after the `forEach` over the table has written `entries`, or `None` when
      a write throws. */
  function WriteEntries(buffer: seq<byte>, entries: seq<FrameEntry>): (r: Option<seq<byte>>)
    ensures r.Some? ==> |r.value| == |buffer|
  {
    if |entries| == 0 then Some(buffer)
    else
      match WriteEntries(buffer, entries[..|entries| - 1])
      case None => None
      case Some(written) => WriteEntry(written, entries[|entries| - 1])
  }

  /** The header `encode` writes for a payload of `payloadLength` bytes and an operation:
      packet length, header length 16, version 1, the operation and sequence id 1. */
  function FrameHeader(payloadLength: nat, op: int): (r: seq<byte>)
    ensures |r| == HEADER_SIZE
  {
    Int32BE(HEADER_SIZE + payloadLength) + Int16BE(16) + Int16BE(1) + Int32BE(op) + Int32BE(1)
  }

  /** The message `encode` sends: the header and then the payload, unchanged. */
  function Frame(payload: seq<byte>, op: int): (r: seq<byte>)
    ensures |r| == HEADER_SIZE + |payload|
    ensures r[HEADER_SIZE..] == payload
  {
    FrameHeader(|payload|, op) + payload
  }

  /** The table with the operation's value set, as `encode` leaves it. */
  function EntriesWith(entries: seq<FrameEntry>, op: int): seq<FrameEntry>
    requires |entries| == 4
  {
    entries[2 := entries[2].(value := op)]
  }

  lemma EntriesFit(entries: seq<FrameEntry>)
    requires WellFormedEntries(entries)
    ensures forall k :: 0 <= k < |entries| ==> EntryFits(entries[k], HEADER_SIZE)
  {
  }

  function Zeros(n: nat): (r: seq<byte>)
    ensures |r| == n
  {
    seq(n, _ => 0)
  }

  /** Writing right after the written part of a zeroed buffer extends the written part. */
  lemma PutAfter(written: seq<byte>, bytes: seq<byte>, n: nat)
    requires |written| + |bytes| <= n
    ensures Put(written + Zeros(n - |written|), |written|, bytes)
            == written + bytes + Zeros(n - |written| - |bytes|)
  {
    var lhs := Put(written + Zeros(n - |written|), |written|, bytes);
    var rhs := written + bytes + Zeros(n - |written| - |bytes|);
    assert forall i :: 0 <= i < n ==> lhs[i] == rhs[i];
  }

  /** One step of the `forEach` when the table writes the header from left to right. */
  lemma WriteNextEntry(start: seq<byte>, es: seq<FrameEntry>, k: nat, written: seq<byte>)
    requires k < |es| && EntrySize(es[k]) > 0
    requires es[k].offset == |written| && |written| + EntrySize(es[k]) <= |start|
    requires WriteEntries(start, es[..k]) == Some(written + Zeros(|start| - |written|))
    ensures WriteEntries(start, es[..k + 1])
            == Some(written + EntryBytes(es[k]) + Zeros(|start| - |written| - EntrySize(es[k])))
  {
    var prefix := es[..k + 1];
    assert prefix[..k] == es[..k] && prefix[k] == es[k] && |prefix| == k + 1;
    PutAfter(written, EntryBytes(es[k]), |start|);
  }

  /** The zeroed header after the two writes of the packet length. */
  lemma LengthWritten(length: seq<byte>)
    requires |length| == 4
    ensures Put(Put(Zeros(HEADER_SIZE), 0, length), 0, length) == length + Zeros(12)
  {
    var once := Put(Zeros(HEADER_SIZE), 0, length);
    assert forall i :: 0 <= i < HEADER_SIZE ==> once[i] == (length + Zeros(12))[i];
    var twice := Put(once, 0, length);
    assert forall i :: 0 <= i < HEADER_SIZE ==> twice[i] == (length + Zeros(12))[i];
  }

  /** The zeroed header after the two writes of the packet length and the `forEach` over
      the table holds exactly the header fields. */
  lemma HeaderWritten(payloadLength: nat, entries: seq<FrameEntry>, op: int)
    requires WellFormedEntries(entries)
    ensures WellFormedEntries(EntriesWith(entries, op))
    ensures var start := Put(Put(Zeros(HEADER_SIZE), 0, Int32BE(HEADER_SIZE + payloadLength)),
                             0, Int32BE(HEADER_SIZE + payloadLength));
            WriteEntries(start, EntriesWith(entries, op)) == Some(FrameHeader(payloadLength, op))
  {
    var es := EntriesWith(entries, op);
    var length := Int32BE(HEADER_SIZE + payloadLength);
    LengthWritten(length);
    var start := length + Zeros(12);
    var p1 := length + Int16BE(16);
    var p2 := p1 + Int16BE(1);
    var p3 := p2 + Int32BE(op);
    assert es[..0] == [];
    assert EntryBytes(es[0]) == Int16BE(16) && EntryBytes(es[1]) == Int16BE(1);
    assert EntryBytes(es[2]) == Int32BE(op) && EntryBytes(es[3]) == Int32BE(1);
    WriteNextEntry(start, es, 0, length);
    WriteNextEntry(start, es, 1, p1);
    WriteNextEntry(start, es, 2, p2);
    WriteNextEntry(start, es, 3, p3);
    assert es[..4] == es;
    assert p3 + Int32BE(1) + Zeros(0) == FrameHeader(payloadLength, op);
  }

  /** What `parse` stores in its result object besides the body. */
  type Fields = map<string, int>

  /** How a run of `parse`, or of its operation-5 loop, ends: with a value, with a thrown
      range error, or never. */
  datatype Run<T> = Ends(value: T) | Throws | Loops

  /** The body `parse` attaches: none, the byte ranges the operation-5 loop hands to the
      JSON decoder, in order, or the count of an operation-3 packet. */
  datatype Body = NoBody | Messages(slices: seq<seq<byte>>) | Count(count: int)

  datatype FrameData = FrameData(fields: Fields, body: Body)

  /** One step of the `forEach` in `parse`: the entry's field read at its offset. */
  function ReadEntry(buffer: seq<byte>, entry: FrameEntry, data: Fields): Option<Fields>
  {
    if entry.size == 4 then
      match GetInt32(buffer, entry.offset)
      case None => None
      case Some(v) => Some(data[entry.key := v])
    else if entry.size == 2 then
      match GetInt16(buffer, entry.offset)
      case None => None
      case Some(v) => Some(data[entry.key := v])
    else Some(data)
  }

  /** The fields after the `forEach` over `entries`, or `None` when a read throws. */
  function ReadEntries(buffer: seq<byte>, start: Fields, entries: seq<FrameEntry>): Option<Fields>
  {
    if |entries| == 0 then Some(start)
    else
      match ReadEntries(buffer, start, entries[..|entries| - 1])
      case None => None
      case Some(data) => ReadEntry(buffer, entries[|entries| - 1], data)
  }

  /** Where `ArrayBuffer.prototype.slice` starts or stops for a position: counted from the
      end when negative, and clamped to the buffer. */
  function SliceIndex(position: int, length: nat): (r: nat)
    ensures r <= length
    ensures 0 <= position <= length ==> r == position
    ensures position + length < 0 ==> r == 0
    ensures position > length ==> r == length
  {
    if position < 0 then (if length + position < 0 then 0 else length + position)
    else if position > length then length
    else position
  }

  /** `buffer.slice(start, end)`: the bytes between the two clamped positions, none when
      the end comes first. */
  function Slice(buffer: seq<byte>, start: int, end: int): (r: seq<byte>)
    ensures 0 <= start <= end <= |buffer| ==> r == buffer[start..end]
    ensures |r| <= |buffer|
  {
    var first, last := SliceIndex(start, |buffer|), SliceIndex(end, |buffer|);
    if first < last then buffer[first..last] else []
  }

  /** The offsets of a buffer of `length` bytes, as the loop's counter can take them. */
  function Offsets(length: nat): (r: set<int>)
    ensures forall i :: i in r <==> 0 <= i < length
  {
    if length == 0 then {} else Offsets(length - 1) + {length - 1}
  }

  /** The slices listed before a run's own, when the run ends. */
  function PrependAll(slices: seq<seq<byte>>, run: Run<seq<seq<byte>>>): Run<seq<seq<byte>>>
  {
    match run
    case Ends(rest) => Ends(slices + rest)
    case Throws => Throws
    case Loops => Loops
  }

  /** The operation-5 loop of `parse` from offset `i`, having read the offsets in
      `visited`: at each offset it reads the step (four bytes) and the header length (two
      bytes after them), slices from `i + l` to `i + step` and moves on by the step. A read
      past the end or before the start throws; an offset read before means the loop runs
      forever, as the buffer and so the steps cannot change. */
  function WalkFrom(buffer: seq<byte>, i: int, visited: set<int>): Run<seq<seq<byte>>>
    decreases Offsets(|buffer|) - visited
  {
    if i >= |buffer| then Ends([])
    else if i < 0 || i + 6 > |buffer| then Throws
    else if i in visited then Loops
    else
      var step := GetInt32(buffer, i).value;
      var l := GetInt16(buffer, i + 4).value;
      assert i in Offsets(|buffer|) - visited;
      PrependAll([Slice(buffer, i + l, i + step)], WalkFrom(buffer, i + step, visited + {i}))
  }

  /** What `parse(buffer)` does: the fields and body it returns, or the range error it
      throws, or running forever. */
  function ParseOf(buffer: seq<byte>, entries: seq<FrameEntry>): Run<FrameData>
  {
    match GetInt32(buffer, 0)
    case None => Throws
    case Some(packetLen) =>
      match ReadEntries(buffer, map["packetLen" := packetLen], entries)
      case None => Throws
      case Some(data) =>
        if "op" in data && data["op"] == OP_MESSAGES then
          match WalkFrom(buffer, 0, {})
          case Ends(slices) => Ends(FrameData(data, Messages(slices)))
          case Throws => Throws
          case Loops => Loops
        else if "op" in data && data["op"] == OP_HEARTBEAT_REPLY then
          match GetInt32(buffer, HEADER_SIZE)
          case None => Throws
          case Some(count) => Ends(FrameData(data, Count(count)))
        else Ends(FrameData(data, NoBody))
  }

  /** The header fields `parse` reads from a buffer of at least 16 bytes. */
  function HeaderFields(buffer: seq<byte>, op: int): Fields
    requires |buffer| >= HEADER_SIZE
  {
    map["packetLen" := GetInt32(buffer, 0).value, "headerLen" := GetInt16(buffer, 4).value,
        "ver" := GetInt16(buffer, 6).value, "op" := op, "seq" := GetInt32(buffer, 12).value]
  }

  /** With the table's layout every field read fits in 16 bytes: a shorter buffer makes
      `parse` throw, a longer one yields the five header fields. */
  lemma ReadHeader(buffer: seq<byte>, entries: seq<FrameEntry>)
    requires WellFormedEntries(entries)
    ensures |buffer| < HEADER_SIZE ==> ParseOf(buffer, entries) == Throws
    ensures |buffer| >= HEADER_SIZE ==>
              ReadEntries(buffer, map["packetLen" := GetInt32(buffer, 0).value], entries)
              == Some(HeaderFields(buffer, GetInt32(buffer, 8).value))
  {
    assert entries[..4] == entries;
    assert entries[..4][..3] == entries[..3];
    if |buffer| < HEADER_SIZE {
      if GetInt32(buffer, 0).Some? {
        var start := map["packetLen" := GetInt32(buffer, 0).value];
        assert GetInt32(buffer, entries[3].offset) == None;
        assert ReadEntries(buffer, start, entries) == None;
      }
    } else {
      var m0 := map["packetLen" := GetInt32(buffer, 0).value];
      assert entries[..3][..2] == entries[..2];
      assert entries[..2][..1] == entries[..1];
      assert entries[..1][..0] == [];
      var m1 := m0["headerLen" := GetInt16(buffer, 4).value];
      assert ReadEntries(buffer, m0, entries[..1]) == Some(m1);
      var m2 := m1["ver" := GetInt16(buffer, 6).value];
      assert ReadEntries(buffer, m0, entries[..2]) == Some(m2);
      var m3 := m2["op" := GetInt32(buffer, 8).value];
      assert ReadEntries(buffer, m0, entries[..3]) == Some(m3);
    }
  }

  /** A message `encode` made is read back by `parse`: the packet length (16 plus the
      payload's length), header length 16, version 1, the operation and sequence id 1, each
      as a signed integer of its width; for operation 3 the count is the payload's first
      four bytes, and a payload too short for it makes `parse` throw; for operation 5 the
      loop hands the payload to the decoder and stops, as the step is the whole frame. */
  lemma FrameRoundTrip(payload: seq<byte>, op: int, entries: seq<FrameEntry>)
    requires WellFormedEntries(entries)
    ensures var parsed := ParseOf(Frame(payload, op), entries);
            var fields := map["packetLen" := ToInt32(HEADER_SIZE + |payload|), "headerLen" := 16,
                              "ver" := 1, "op" := ToInt32(op), "seq" := 1];
            && (ToInt32(op) == OP_HEARTBEAT_REPLY ==> (parsed.Ends? <==> |payload| >= 4))
            && (parsed.Ends? ==> parsed.value.fields == fields)
            && (ToInt32(op) == OP_MESSAGES && HEADER_SIZE + |payload| < TWO_31 ==>
                  parsed == Ends(FrameData(fields, Messages([payload]))))
            && (ToInt32(op) == OP_HEARTBEAT_REPLY && |payload| >= 4 ==>
                  parsed == Ends(FrameData(fields, Count(GetInt32(payload, 0).value))))
            && (ToInt32(op) != OP_MESSAGES && ToInt32(op) != OP_HEARTBEAT_REPLY ==>
                  parsed == Ends(FrameData(fields, NoBody)))
  {
    var frame := Frame(payload, op);
    ReadFrameHeader(payload, op);
    ReadHeader(frame, entries);
    if |payload| >= 4 {
      assert frame[HEADER_SIZE..HEADER_SIZE + 4] == payload[0..4];
    }
    if ToInt32(op) == OP_MESSAGES && HEADER_SIZE + |payload| < TWO_31 {
      SingleFrameWalk(payload, op);
    }
  }

  /** The operation-5 loop over one frame of fewer than 2^31 bytes makes one step, from the
      header to the end, and slices out the payload. */
  lemma {:induction false} SingleFrameWalk(payload: seq<byte>, op: int)
    requires HEADER_SIZE + |payload| < TWO_31
    ensures WalkFrom(Frame(payload, op), 0, {}) == Ends([payload])
  {
    var frame := Frame(payload, op);
    ReadFrameHeader(payload, op);
    FirstStep(frame);
    assert frame[HEADER_SIZE..|frame|] == payload;
    assert WalkFrom(frame, |frame|, {0}) == Ends([]);
    assert [payload] + [] == [payload];
  }

  /** Messages `encode` made, sent one after the other in one packet. */
  function Frames(payloads: seq<seq<byte>>, op: int): seq<byte>
  {
    if |payloads| == 0 then [] else Frame(payloads[0], op) + Frames(payloads[1..], op)
  }

  /** Frames of fewer than 2^31 bytes each, packed after any bytes already read, are split
      apart by the operation-5 loop: it hands their payloads to the decoder in order. */
  lemma {:induction false} WalkFrames(prefix: seq<byte>, payloads: seq<seq<byte>>, op: int, visited: set<int>)
    requires forall k :: 0 <= k < |payloads| ==> HEADER_SIZE + |payloads[k]| < TWO_31
    requires forall v :: v in visited ==> v < |prefix|
    ensures WalkFrom(prefix + Frames(payloads, op), |prefix|, visited) == Ends(payloads)
  {
    PackedFrames(prefix, payloads, op);
    WalkFramesFrom(prefix + Frames(payloads, op), |prefix|, payloads, visited);
  }

  /** What the operation-5 loop reads from offset `i` on: each payload behind a 16-byte
      header whose length field is the frame's size, one frame after the other, up to the
      end of the buffer. */
  predicate FramesAt(buffer: seq<byte>, i: nat, payloads: seq<seq<byte>>)
    decreases |payloads|
  {
    if |payloads| == 0 then i == |buffer|
    else
      var n := HEADER_SIZE + |payloads[0]|;
      && i + n <= |buffer|
      && GetInt32(buffer, i) == Some(n) && GetInt16(buffer, i + 4) == Some(HEADER_SIZE)
      && Slice(buffer, i + HEADER_SIZE, i + n) == payloads[0]
      && FramesAt(buffer, i + n, payloads[1..])
  }

  /** Frames of fewer than 2^31 bytes each, packed after a prefix, are read as such from the
      prefix's end on. */
  lemma {:induction false} PackedFrames(prefix: seq<byte>, payloads: seq<seq<byte>>, op: int)
    requires forall k :: 0 <= k < |payloads| ==> HEADER_SIZE + |payloads[k]| < TWO_31
    ensures FramesAt(prefix + Frames(payloads, op), |prefix|, payloads)
    decreases |payloads|
  {
    if |payloads| > 0 {
      var frame := Frame(payloads[0], op);
      var prefix' := prefix + frame;
      var buffer := prefix + Frames(payloads, op);
      var rest := payloads[1..];
      assert buffer == prefix' + Frames(rest, op);
      assert buffer[|prefix|..|prefix'|] == frame;
      FrameReads(buffer, |prefix|, payloads[0], op);
      assert forall k :: 0 <= k < |rest| ==> HEADER_SIZE + |rest[k]| < TWO_31 by {
        forall k | 0 <= k < |rest| ensures HEADER_SIZE + |rest[k]| < TWO_31 {
          assert rest[k] == payloads[k + 1];
        }
      }
      PackedFrames(prefix', rest, op);
    }
  }

  /** From an offset where the loop reads frames up to the end, it hands their payloads to
      the decoder in order. */
  lemma {:induction false} WalkFramesFrom(buffer: seq<byte>, i: nat, payloads: seq<seq<byte>>, visited: set<int>)
    requires forall v :: v in visited ==> v < i
    requires FramesAt(buffer, i, payloads)
    ensures WalkFrom(buffer, i, visited) == Ends(payloads)
    decreases |payloads|
  {
    if |payloads| > 0 {
      var next := i + HEADER_SIZE + |payloads[0]|;
      FramesStep(buffer, i, payloads, visited);
      WalkFramesFrom(buffer, next, payloads[1..], visited + {i});
      assert [payloads[0]] + payloads[1..] == payloads;
    }
  }

  /** At the first of several frames the loop slices out its payload and moves on to the
      next frame. */
  lemma {:induction false} FramesStep(buffer: seq<byte>, i: nat, payloads: seq<seq<byte>>, visited: set<int>)
    requires |payloads| > 0 && forall v :: v in visited ==> v < i
    requires FramesAt(buffer, i, payloads)
    ensures var next := i + HEADER_SIZE + |payloads[0]|;
            && WalkFrom(buffer, i, visited) == PrependAll([payloads[0]], WalkFrom(buffer, next, visited + {i}))
            && FramesAt(buffer, next, payloads[1..])
            && (forall v :: v in visited + {i} ==> v < next)
  {
    WalkStep(buffer, i, visited);
  }

  /** A slice of a slice is a slice of the whole. */
  lemma SliceOfSlice(buffer: seq<byte>, i: nat, n: nat, j: nat, k: nat)
    requires i + n <= |buffer| && j <= k <= n
    ensures buffer[i..i + n][j..k] == buffer[i + j..i + k]
  {
    var inner, whole := buffer[i..i + n][j..k], buffer[i + j..i + k];
    forall t | 0 <= t < k - j
      ensures inner[t] == whole[t]
    {
    }
  }

  /** What the loop reads and slices at an offset where a frame sits. */
  lemma {:induction false} FrameReads(buffer: seq<byte>, i: nat, payload: seq<byte>, op: int)
    requires HEADER_SIZE + |payload| < TWO_31
    requires i + HEADER_SIZE + |payload| <= |buffer|
    requires buffer[i..i + HEADER_SIZE + |payload|] == Frame(payload, op)
    ensures GetInt32(buffer, i) == Some(HEADER_SIZE + |payload|)
    ensures GetInt16(buffer, i + 4) == Some(16)
    ensures Slice(buffer, i + 16, i + HEADER_SIZE + |payload|) == payload
  {
    var n := HEADER_SIZE + |payload|;
    var frame := Frame(payload, op);
    ReadFrameHeader(payload, op);
    ReadsAgree(buffer, i, frame);
    SliceOfSlice(buffer, i, n, HEADER_SIZE, n);
    assert frame[HEADER_SIZE..n] == payload;
  }

  /** The header reads at an offset see the bytes placed there. */
  lemma ReadsAgree(buffer: seq<byte>, i: nat, frame: seq<byte>)
    requires |frame| >= 6 && i + |frame| <= |buffer| && buffer[i..i + |frame|] == frame
    ensures GetInt32(buffer, i) == GetInt32(frame, 0)
    ensures GetInt16(buffer, i + 4) == GetInt16(frame, 4)
  {
    SliceOfSlice(buffer, i, |frame|, 0, 4);
    SliceOfSlice(buffer, i, |frame|, 4, 6);
  }

  /** One turn of the operation-5 loop at an offset it has not read. */
  lemma {:induction false} WalkStep(buffer: seq<byte>, i: int, visited: set<int>)
    requires 0 <= i && i + 6 <= |buffer| && i !in visited
    ensures WalkFrom(buffer, i, visited)
            == PrependAll([Slice(buffer, i + GetInt16(buffer, i + 4).value, i + GetInt32(buffer, i).value)],
                          WalkFrom(buffer, i + GetInt32(buffer, i).value, visited + {i}))
  {
  }

  /** The five header reads of a message `encode` made. */
  lemma ReadFrameHeader(payload: seq<byte>, op: int)
    ensures var frame := Frame(payload, op);
            && GetInt32(frame, 0) == Some(ToInt32(HEADER_SIZE + |payload|))
            && GetInt16(frame, 4) == Some(16)
            && GetInt16(frame, 6) == Some(1)
            && GetInt32(frame, 8) == Some(ToInt32(op))
            && GetInt32(frame, 12) == Some(1)
  {
    var frame := Frame(payload, op);
    Int32RoundTrip(HEADER_SIZE + |payload|);
    Int16RoundTrip(16);
    Int16RoundTrip(1);
    Int32RoundTrip(op);
    Int32RoundTrip(1);
    assert frame[0..4] == Int32BE(HEADER_SIZE + |payload|)[..4];
    assert frame[4..6] == Int16BE(16)[..2];
    assert frame[6..8] == Int16BE(1)[..2];
    assert frame[8..12] == Int32BE(op)[..4];
    assert frame[12..16] == Int32BE(1)[..4];
  }

  /** `RemoteCommentReceiver`, reduced to its framing. Its `frameDefinitionEntries` is a
      static table in the source, shared by every receiver; here it is a field. */
  class RemoteCommentReceiver {
    var frameDefinitionEntries: seq<FrameEntry>

    ghost predicate Valid()
      reads this
    {
      WellFormedEntries(frameDefinitionEntries)
    }

    constructor ()
      ensures Valid() && frameDefinitionEntries == DEFAULT_ENTRIES
    {
      frameDefinitionEntries := DEFAULT_ENTRIES;
    }

    /** `DataView.setInt32(offset, value)` on the header buffer. */
    static method SetInt32(view: array<byte>, offset: nat, value: int)
      requires offset + 4 <= view.Length
      modifies view
      ensures view[..] == Put(old(view[..]), offset, Int32BE(value))
    {
      var bytes := Int32BE(value);
      view[offset] := bytes[0];
      view[offset + 1] := bytes[1];
      view[offset + 2] := bytes[2];
      view[offset + 3] := bytes[3];
    }

    /** `DataView.setInt16(offset, value)` on the header buffer. */
    static method SetInt16(view: array<byte>, offset: nat, value: int)
      requires offset + 2 <= view.Length
      modifies view
      ensures view[..] == Put(old(view[..]), offset, Int16BE(value))
    {
      var bytes := Int16BE(value);
      view[offset] := bytes[0];
      view[offset + 1] := bytes[1];
    }

    /** `mergeBuffers`: a new array holding the first buffer and then the second. */
    static method MergeBuffers(b: seq<byte>, c: seq<byte>) returns (r: seq<byte>)
      ensures r == b + c
    {
      var d := new byte[|b| + |c|](_ => 0);
      for i := 0 to |b|
        invariant forall j :: 0 <= j < i ==> d[j] == b[j]
      {
        d[i] := b[i];
      }
      for i := 0 to |c|
        invariant forall j :: 0 <= j < |b| ==> d[j] == b[j]
        invariant forall j :: 0 <= j < i ==> d[|b| + j] == c[j]
      {
        d[|b| + i] := c[i];
      }
      r := d[..];
      assert forall j :: 0 <= j < |b| + |c| ==> r[j] == (b + c)[j];
    }

    /** The `forEach` of `encode` over the table: each 4-byte entry written with
        `setInt32`, each 2-byte entry with `setInt16`. */
    static method WriteHeader(view: array<byte>, entries: seq<FrameEntry>)
      requires forall k :: 0 <= k < |entries| ==> EntryFits(entries[k], view.Length)
      modifies view
      ensures WriteEntries(old(view[..]), entries) == Some(view[..])
    {
      ghost var start := view[..];
      for k := 0 to |entries|
        invariant WriteEntries(start, entries[..k]) == Some(view[..])
      {
        var entry := entries[k];
        assert entries[..k + 1][..k] == entries[..k];
        if entry.size == 4 {
          SetInt32(view, entry.offset, entry.value);
        } else if entry.size == 2 {
          SetInt16(view, entry.offset, entry.value);
        }
      }
      assert entries[..|entries|] == entries;
    }

    /** `encode(data, protocolVersion)` on the encoded payload: writes the header into a
        zeroed 16-byte buffer and appends the payload. The argument is stored as the
        operation entry's value, so it is the operation that the header carries. */
    method Encode(payload: seq<byte>, protocolVersion: int) returns (r: seq<byte>)
      requires Valid()
      modifies this
      ensures Valid()
      ensures frameDefinitionEntries == EntriesWith(old(frameDefinitionEntries), protocolVersion)
      ensures r == Frame(payload, protocolVersion)
    {
      var metadataView := new byte[HEADER_SIZE](_ => 0);
      assert metadataView[..] == Zeros(HEADER_SIZE);
      SetInt32(metadataView, 0, HEADER_SIZE + |payload|);
      SetInt32(metadataView, 0, HEADER_SIZE + |payload|);
      HeaderWritten(|payload|, frameDefinitionEntries, protocolVersion);
      frameDefinitionEntries := EntriesWith(frameDefinitionEntries, protocolVersion);
      EntriesFit(frameDefinitionEntries);
      WriteHeader(metadataView, frameDefinitionEntries);
      r := MergeBuffers(metadataView[..], payload);
    }

    /** `parse(buffer)` up to the decoding of operation-5 messages. Where the source's
        operation-5 loop comes back to an offset it has read, and so would run forever,
        this method stops and says so. */
    method Parse(buffer: seq<byte>) returns (r: Run<FrameData>)
      requires Valid()
      ensures r == ParseOf(buffer, frameDefinitionEntries)
    {
      var packetLen := GetInt32(buffer, 0);
      if packetLen.None? {
        return Throws;
      }
      var data: Fields := map["packetLen" := packetLen.value];
      var entries := frameDefinitionEntries;
      for k := 0 to |entries|
        invariant ReadEntries(buffer, map["packetLen" := packetLen.value], entries[..k]) == Some(data)
      {
        var entry := entries[k];
        assert entries[..k + 1][..k] == entries[..k];
        if entry.size == 4 {
          var v := GetInt32(buffer, entry.offset);
          if v.None? {
            ReadFailurePersists(buffer, map["packetLen" := packetLen.value], entries, k + 1);
            return Throws;
          }
          data := data[entry.key := v.value];
        } else if entry.size == 2 {
          var v := GetInt16(buffer, entry.offset);
          if v.None? {
            ReadFailurePersists(buffer, map["packetLen" := packetLen.value], entries, k + 1);
            return Throws;
          }
          data := data[entry.key := v.value];
        }
      }
      assert entries[..|entries|] == entries;
      if "op" in data && data["op"] == OP_MESSAGES {
        var slices := WalkMessages(buffer);
        r := match slices
          case Ends(body) => Ends(FrameData(data, Messages(body)))
          case Throws => Throws
          case Loops => Loops;
      } else if "op" in data && data["op"] == OP_HEARTBEAT_REPLY {
        var count := GetInt32(buffer, HEADER_SIZE);
        if count.None? {
          return Throws;
        }
        r := Ends(FrameData(data, Count(count.value)));
      } else {
        r := Ends(FrameData(data, NoBody));
      }
    }
  }

  /** The operation-5 loop of `parse`: `for (i = 0; i < byteLength; i += step)`, reading
      the step and the header length at each offset and slicing the message out. The set of
      offsets read lets the model stop where the source would go round forever. */
  method WalkMessages(buffer: seq<byte>) returns (r: Run<seq<seq<byte>>>)
    ensures r == WalkFrom(buffer, 0, {})
  {
    var slices: seq<seq<byte>> := [];
    var visited: set<int> := {};
    var i: int := 0;
    PrependNothing(WalkFrom(buffer, 0, {}));
    while i < |buffer|
      invariant WalkFrom(buffer, 0, {}) == PrependAll(slices, WalkFrom(buffer, i, visited))
      decreases Offsets(|buffer|) - visited
    {
      if i < 0 || i + 6 > |buffer| {
        assert WalkFrom(buffer, i, visited) == Throws;
        return Throws;
      }
      if i in visited {
        assert WalkFrom(buffer, i, visited) == Loops;
        return Loops;
      }
      var step := GetInt32(buffer, i).value;
      var l := GetInt16(buffer, i + 4).value;
      var slice := Slice(buffer, i + l, i + step);
      WalkStep(buffer, i, visited);
      PrependAllTwice(slices, slice, WalkFrom(buffer, i + step, visited + {i}));
      assert i in Offsets(|buffer|) - visited;
      slices := slices + [slice];
      visited := visited + {i};
      i := i + step;
    }
    assert slices + [] == slices;
    r := Ends(slices);
  }

  /** Listing no slices first changes nothing. */
  lemma {:induction false} PrependNothing(run: Run<seq<seq<byte>>>)
    ensures PrependAll([], run) == run
  {
    if run.Ends? {
      assert [] + run.value == run.value;
    }
  }

  /** Listing slices in two goes lists them in one. */
  lemma {:induction false} PrependAllTwice(slices: seq<seq<byte>>, slice: seq<byte>, run: Run<seq<seq<byte>>>)
    ensures PrependAll(slices, PrependAll([slice], run)) == PrependAll(slices + [slice], run)
  {
    if run.Ends? {
      assert slices + ([slice] + run.value) == (slices + [slice]) + run.value;
    }
  }

  /** A packet length of zero sends the operation-5 loop round the first offset forever. */
  lemma {:induction false} ZeroStepLoops(buffer: seq<byte>, entries: seq<FrameEntry>)
    requires WellFormedEntries(entries) && |buffer| >= HEADER_SIZE
    requires GetInt32(buffer, 0) == Some(0) && GetInt32(buffer, 8) == Some(OP_MESSAGES)
    ensures ParseOf(buffer, entries) == Loops
  {
    ReadHeader(buffer, entries);
    FirstStep(buffer);
    assert WalkFrom(buffer, 0, {0}) == Loops;
  }

  /** A negative packet length moves the operation-5 loop before the buffer, where the next
      read throws. */
  lemma {:induction false} NegativeStepThrows(buffer: seq<byte>, entries: seq<FrameEntry>)
    requires WellFormedEntries(entries) && |buffer| >= HEADER_SIZE
    requires GetInt32(buffer, 0).Some? && GetInt32(buffer, 0).value < 0
    requires GetInt32(buffer, 8) == Some(OP_MESSAGES)
    ensures ParseOf(buffer, entries) == Throws
  {
    ReadHeader(buffer, entries);
    FirstStep(buffer);
    assert WalkFrom(buffer, GetInt32(buffer, 0).value, {0}) == Throws;
  }

  /** The operation-5 loop's first step, from offset 0 by the packet length. */
  lemma {:induction false} FirstStep(buffer: seq<byte>)
    requires |buffer| >= 6
    ensures WalkFrom(buffer, 0, {}) ==
              PrependAll([Slice(buffer, GetInt16(buffer, 4).value, GetInt32(buffer, 0).value)],
                         WalkFrom(buffer, GetInt32(buffer, 0).value, {0}))
  {
    assert {} + {0} == {0};
  }

  /** When the packet length stops short of the end by fewer than six bytes, the loop's
      next reads run past the end and throw: an 18-byte operation-5 packet whose length
      field says 16, say. */
  lemma {:induction false} ShortTailThrows(buffer: seq<byte>, entries: seq<FrameEntry>)
    requires WellFormedEntries(entries) && |buffer| >= HEADER_SIZE
    requires GetInt32(buffer, 0).Some?
    requires 0 < GetInt32(buffer, 0).value < |buffer| < GetInt32(buffer, 0).value + 6
    requires GetInt32(buffer, 8) == Some(OP_MESSAGES)
    ensures ParseOf(buffer, entries) == Throws
  {
    ReadHeader(buffer, entries);
    FirstStep(buffer);
    assert WalkFrom(buffer, GetInt32(buffer, 0).value, {0}) == Throws;
  }

  /** Once a read throws, the rest of the `forEach` is not reached. */
  lemma {:induction false} ReadFailurePersists(buffer: seq<byte>, start: Fields, entries: seq<FrameEntry>, k: nat)
    requires k <= |entries| && ReadEntries(buffer, start, entries[..k]) == None
    ensures ReadEntries(buffer, start, entries) == None
    decreases |entries| - k
  {
    if k < |entries| {
      assert entries[..k + 1][..k] == entries[..k];
      ReadFailurePersists(buffer, start, entries, k + 1);
    } else {
      assert entries[..k] == entries;
    }
  }
}
