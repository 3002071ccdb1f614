/** The header check of `isValidWavHeader`: a bounded read of the first 44
    bytes of a file, accumulated chunk by chunk, and a verdict computed from
    the RIFF/RIFX magic and the little-endian sample-rate field at offset 24. */
module HeaderInspector {

  type byte = x: int | 0 <= x < 256

  /** `createReadStream(path, { end: 43 })`: the last byte read is index 43 (inclusive). */
  const ReadEnd: nat := 43
  /** Offset of the sample-rate field of the "fmt " chunk in a canonical WAV header. */
  const SampleRateOffset: nat := 24
  /** A header shorter than this cannot hold the sample-rate field. */
  const MinHeaderLength: nat := 28
  /** The only sample rate accepted for pass-through. */
  const TargetSampleRate: nat := 16000

  /** ASCII "RIFF" and "RIFX" as bytes. */
  const RiffMagic: seq<byte> := [0x52, 0x49, 0x46, 0x46]
  const RifxMagic: seq<byte> := [0x52, 0x49, 0x46, 0x58]

  function Min(a: int, b: int): int { if a <= b then a else b }

  /** Node's 'binary' (latin1) decoding: each byte becomes the character with that code. */
  function Latin1(bytes: seq<byte>): (s: string)
    ensures |s| == |bytes|
    ensures forall i :: 0 <= i < |s| ==> s[i] as int == bytes[i]
  {
    seq(|bytes|, i requires 0 <= i < |bytes| => bytes[i] as char)
  }

  /** `data.toString('binary', 0, 4)` is "RIFF" or "RIFX"; the end index is
      clamped to the buffer length, so a shorter buffer decodes to a shorter string. */
  predicate HasWavMagic(data: seq<byte>)
  {
    var tag := Latin1(data[..Min(|data|, 4)]);
    tag == "RIFF" || tag == "RIFX"
  }

  /** `readUInt32LE(offset)`: bytes at offset..offset+3, least significant first. */
  function UInt32LE(data: seq<byte>, offset: nat): (v: nat)
    requires offset + 4 <= |data|
    ensures v < 0x1_0000_0000
    ensures v % 0x100 == data[offset]
  {
    data[offset] as int + data[offset + 1] as int * 0x100
      + data[offset + 2] as int * 0x1_0000 + data[offset + 3] as int * 0x100_0000
  }

  /** The four little-endian bytes of a 32-bit value: the inverse of `UInt32LE`. */
  function EncodeUInt32LE(v: nat): (bytes: seq<byte>)
    requires v < 0x1_0000_0000
    ensures |bytes| == 4
  {
    [v % 0x100, (v / 0x100) % 0x100, (v / 0x1_0000) % 0x100, v / 0x100_0000]
  }

  /** The 'end' handler: the verdict on the accumulated buffer. */
  predicate HeaderVerdict(data: seq<byte>)
  {
    if !HasWavMagic(data) then false
    else if |data| >= MinHeaderLength then UInt32LE(data, SampleRateOffset) == TargetSampleRate
    else false
  }

  /** The bytes the bounded read can deliver: the first ReadEnd + 1 bytes of the file. */
  function HeaderWindow(file: seq<byte>): (w: seq<byte>)
    ensures |w| <= ReadEnd + 1
    ensures w <= file
    ensures |file| <= ReadEnd + 1 ==> w == file
  {
    file[..Min(|file|, ReadEnd + 1)]
  }

  // ---------------------------------------------------------------------
  // Decoding of the magic and of the sample-rate field

  lemma MagicAsBytes(data: seq<byte>)
    ensures HasWavMagic(data) <==> |data| >= 4 && (data[..4] == RiffMagic || data[..4] == RifxMagic)
  {
    if |data| >= 4 {
      var head := data[..4];
      assert data[..Min(|data|, 4)] == head;
      TagMatches(head, RiffMagic, "RIFF");
      TagMatches(head, RifxMagic, "RIFX");
    } else {
      assert |Latin1(data[..Min(|data|, 4)])| < 4;
    }
  }

  /** Four bytes decode to a four-letter tag exactly when they are its codes. */
  lemma TagMatches(head: seq<byte>, magic: seq<byte>, tag: string)
    requires |head| == |magic| == |tag|
    requires forall i :: 0 <= i < |tag| ==> tag[i] as int == magic[i]
    ensures Latin1(head) == tag <==> head == magic
  {
    var s := Latin1(head);
    if s == tag {
      forall i | 0 <= i < |head| ensures head[i] == magic[i] {
        assert s[i] as int == head[i];
      }
    }
    if head == magic {
      forall i | 0 <= i < |head| ensures s[i] == tag[i] {
        assert s[i] as int == tag[i] as int;
      }
    }
  }

  lemma {:induction false} DecodeEncode(v: nat)
    requires v < 0x1_0000_0000
    ensures UInt32LE(EncodeUInt32LE(v), 0) == v
  {
    var b := EncodeUInt32LE(v);
    var q1 := v / 0x100;
    var q2 := q1 / 0x100;
    assert v == b[0] + 0x100 * q1;
    assert q1 == b[1] + 0x100 * q2;
    assert q2 == v / 0x1_0000;
    assert q2 == b[2] as int + 0x100 * b[3] as int;
  }

  lemma {:induction false} EncodeDecode(data: seq<byte>, offset: nat)
    requires offset + 4 <= |data|
    ensures EncodeUInt32LE(UInt32LE(data, offset)) == data[offset..offset + 4]
  {
    var v := UInt32LE(data, offset);
    var b0, b1, b2, b3: int := data[offset], data[offset + 1], data[offset + 2], data[offset + 3];
    var q1 := b1 + 0x100 * b2 + 0x1_0000 * b3;
    var q2 := b2 + 0x100 * b3;
    assert v == b0 + 0x100 * q1;
    assert v / 0x100 == q1 && v % 0x100 == b0;
    assert q1 == b1 + 0x100 * q2;
    assert q1 / 0x100 == q2 && q1 % 0x100 == b1;
    assert v / 0x1_0000 == q2 by {
      assert v == b0 + b1 * 0x100 + 0x1_0000 * q2;
    }
    assert q2 / 0x100 == b3 && q2 % 0x100 == b2;
    assert v / 0x100_0000 == b3 by {
      assert v == b0 + b1 * 0x100 + b2 * 0x1_0000 + 0x100_0000 * b3;
    }
  }

  /** Two equal 4-byte fields decode to the same value and vice versa. */
  lemma UInt32LEInjective(a: seq<byte>, i: nat, b: seq<byte>, j: nat)
    requires i + 4 <= |a| && j + 4 <= |b|
    ensures UInt32LE(a, i) == UInt32LE(b, j) <==> a[i..i + 4] == b[j..j + 4]
  {
    if UInt32LE(a, i) == UInt32LE(b, j) {
      EncodeDecode(a, i);
      EncodeDecode(b, j);
    }
    if a[i..i + 4] == b[j..j + 4] {
      assert a[i] == b[j] && a[i + 1] == b[j + 1] && a[i + 2] == b[j + 2] && a[i + 3] == b[j + 3] by {
        assert a[i..i + 4][0] == a[i] && a[i..i + 4][1] == a[i + 1];
        assert a[i..i + 4][2] == a[i + 2] && a[i..i + 4][3] == a[i + 3];
      }
    }
  }

  // ---------------------------------------------------------------------
  // Properties of the verdict

  /** Without the magic (which includes every buffer shorter than 4 bytes)
      the verdict is false, whatever follows. */
  lemma NoMagicRejected(data: seq<byte>)
    requires |data| < 4 || (data[..4] != RiffMagic && data[..4] != RifxMagic)
    ensures !HeaderVerdict(data)
  {
    MagicAsBytes(data);
  }

  /** A header cut short before the end of the sample-rate field is rejected. */
  lemma TruncatedHeaderRejected(data: seq<byte>)
    requires |data| < MinHeaderLength
    ensures !HeaderVerdict(data)
  {
  }

  /** The verdict in full: magic, length and the field at offset 24 holding 16000. */
  lemma VerdictCharacterized(data: seq<byte>)
    ensures HeaderVerdict(data) <==>
      |data| >= MinHeaderLength
      && (data[..4] == RiffMagic || data[..4] == RifxMagic)
      && data[24] as int + data[25] as int * 0x100 + data[26] as int * 0x1_0000
         + data[27] as int * 0x100_0000 == 16000
  {
    MagicAsBytes(data);
  }

  /** With the magic in place and a full header, the verdict holds exactly when the
      four bytes at offset 24 are 16000 written least significant byte first. */
  lemma VerdictIffRateBytes(data: seq<byte>)
    requires |data| >= MinHeaderLength
    requires data[..4] == RiffMagic || data[..4] == RifxMagic
    ensures HeaderVerdict(data) <==> data[24..28] == [0x80, 0x3E, 0x00, 0x00]
  {
    MagicAsBytes(data);
    EncodeDecode(data, SampleRateOffset);
    assert EncodeUInt32LE(16000) == [0x80, 0x3E, 0x00, 0x00];
  }

  /** A header that records any rate R in its sample-rate field is accepted iff R is 16000;
      in particular 8000, 44100 and 48000 Hz are rejected. */
  lemma RecordedRateDecides(data: seq<byte>, rate: nat)
    requires |data| >= MinHeaderLength
    requires data[..4] == RiffMagic || data[..4] == RifxMagic
    requires rate < 0x1_0000_0000 && data[24..28] == EncodeUInt32LE(rate)
    ensures HeaderVerdict(data) <==> rate == TargetSampleRate
    ensures rate in {8000, 44100, 48000} ==> !HeaderVerdict(data)
  {
    MagicAsBytes(data);
    DecodeEncode(rate);
    assert UInt32LE(data, SampleRateOffset) == UInt32LE(EncodeUInt32LE(rate), 0);
  }

  /** The little-endian read is applied to RIFX (big-endian) files too: a RIFX
      header that stores 16000 big-endian is rejected, and one that stores it
      little-endian is accepted. */
  lemma RifxReadLittleEndian(data: seq<byte>)
    requires |data| >= MinHeaderLength && data[..4] == RifxMagic
    ensures data[24..28] == [0x00, 0x00, 0x3E, 0x80] ==> !HeaderVerdict(data)
    ensures data[24..28] == [0x80, 0x3E, 0x00, 0x00] ==> HeaderVerdict(data)
  {
    VerdictIffRateBytes(data);
  }

  /** Only bytes 0..3 and 24..27 (and whether the buffer reaches 28 bytes)
      influence the verdict. */
  lemma VerdictDependsOnlyOnMagicAndRate(a: seq<byte>, b: seq<byte>)
    requires (|a| >= MinHeaderLength) == (|b| >= MinHeaderLength)
    requires forall i :: (0 <= i < 4 || 24 <= i < 28) && i < |a| && i < |b| ==> a[i] == b[i]
    ensures HeaderVerdict(a) == HeaderVerdict(b)
  {
    if |a| >= MinHeaderLength {
      assert a[..4] == b[..4];
      MagicAsBytes(a);
      MagicAsBytes(b);
    }
  }

  /** Reading only the first 44 bytes loses nothing: the verdict on the window
      equals the verdict on the whole file, so bytes from index 44 on cannot matter. */
  lemma WindowDecides(file: seq<byte>)
    ensures HeaderVerdict(HeaderWindow(file)) == HeaderVerdict(file)
  {
    var w := HeaderWindow(file);
    forall i | 0 <= i < |w| ensures w[i] == file[i] { }
    VerdictDependsOnlyOnMagicAndRate(w, file);
  }

  // ---------------------------------------------------------------------
  // The stream: chunks arrive as 'data' events, then 'end' or 'error'

  datatype ReadEvent = Data(chunk: seq<byte>) | End | StreamError(reason: string)

  /** The state of the promise returned by `isValidWavHeader`. */
  datatype Settlement = Pending | Resolved(valid: bool) | Rejected(reason: string)

  /** In-order concatenation of the chunks. */
  function Concat(chunks: seq<seq<byte>>): (data: seq<byte>)
    decreases |chunks|
  {
    if chunks == [] then [] else chunks[0] + Concat(chunks[1..])
  }

  /** One 'data' event per chunk. */
  function DataEvents(chunks: seq<seq<byte>>): (events: seq<ReadEvent>)
    ensures |events| == |chunks|
    ensures forall i :: 0 <= i < |events| ==> events[i] == Data(chunks[i])
  {
    seq(|chunks|, i requires 0 <= i < |chunks| => Data(chunks[i]))
  }

  /** What the promise settles to when `events` are delivered to a handler
      whose buffer already holds `data`: the first 'end' resolves with the
      verdict on the buffer, the first 'error' rejects, and nothing else settles. */
  function Settle(events: seq<ReadEvent>, data: seq<byte>): Settlement
    decreases |events|
  {
    if events == [] then Pending
    else match events[0]
      case Data(chunk) => Settle(events[1..], data + chunk)
      case End => Resolved(HeaderVerdict(data))
      case StreamError(reason) => Rejected(reason)
  }

  /** The promise stays pending exactly while only 'data' events arrive; it
      resolves only after an 'end' and rejects only with an error the stream
      delivered. */
  lemma {:induction false} SettleOnlyOnEndOrError(events: seq<ReadEvent>, data: seq<byte>)
    ensures Settle(events, data).Pending? <==> forall i :: 0 <= i < |events| ==> events[i].Data?
    ensures Settle(events, data).Resolved? ==> End in events
    ensures Settle(events, data).Rejected? ==> StreamError(Settle(events, data).reason) in events
    decreases |events|
  {
    if events != [] && events[0].Data? {
      SettleOnlyOnEndOrError(events[1..], data + events[0].chunk);
      assert forall i :: 1 <= i < |events| ==> events[i] == events[1..][i - 1];
      assert forall e :: e in events[1..] ==> e in events;
    }
  }

  /** `isValidWavHeader`: runs the three handlers over the delivered events.
      Every 'data' event appends its chunk to the buffer; only the first
      'end' or 'error' settles the promise. */
  method IsValidWavHeader(events: seq<ReadEvent>) returns (result: Settlement)
    ensures result == Settle(events, [])
  {
    var data: seq<byte> := [];
    result := Pending;
    var i := 0;
    while i < |events|
      invariant 0 <= i <= |events|
      invariant result.Pending? ==> Settle(events[i..], data) == Settle(events, [])
      invariant !result.Pending? ==> result == Settle(events, [])
    {
      assert events[i..][1..] == events[i + 1..];
      match events[i] {
        case Data(chunk) =>
          data := data + chunk;
        case End =>
          if result.Pending? {
            result := Resolved(HeaderVerdict(data));
          }
        case StreamError(reason) =>
          if result.Pending? {
            result := Rejected(reason);
          }
      }
      i := i + 1;
    }
  }

  /** Chunks delivered before any settling event are appended in order. */
  lemma {:induction false} SettleAfterChunks(chunks: seq<seq<byte>>, rest: seq<ReadEvent>, data: seq<byte>)
    ensures Settle(DataEvents(chunks) + rest, data) == Settle(rest, data + Concat(chunks))
    decreases |chunks|
  {
    if chunks == [] {
      assert DataEvents(chunks) + rest == rest;
      assert data + Concat(chunks) == data;
    } else {
      var events := DataEvents(chunks) + rest;
      assert events[0] == Data(chunks[0]);
      assert events[1..] == DataEvents(chunks[1..]) + rest;
      SettleAfterChunks(chunks[1..], rest, data + chunks[0]);
      assert data + chunks[0] + Concat(chunks[1..]) == data + Concat(chunks);
    }
  }

  /** A read that delivers the header window and then ends resolves with the
      verdict on the whole file. */
  lemma DeliveredStreamResolves(file: seq<byte>, chunks: seq<seq<byte>>)
    requires Concat(chunks) == HeaderWindow(file)
    ensures Settle(DataEvents(chunks) + [End], []) == Resolved(HeaderVerdict(file))
  {
    SettleAfterChunks(chunks, [End], []);
    assert [] + Concat(chunks) == HeaderWindow(file);
    WindowDecides(file);
  }

  /** A read that fails after some chunks rejects with the stream's error. */
  lemma FailedStreamRejects(chunks: seq<seq<byte>>, reason: string)
    ensures Settle(DataEvents(chunks) + [StreamError(reason)], []) == Rejected(reason)
  {
    SettleAfterChunks(chunks, [StreamError(reason)], []);
  }

  /** How a file stream cuts `bytes` into chunks of at most `size` bytes. */
  function Chunked(bytes: seq<byte>, size: nat): (chunks: seq<seq<byte>>)
    requires size > 0
    ensures Concat(chunks) == bytes
    ensures forall i :: 0 <= i < |chunks| ==> 0 < |chunks[i]| <= size
    decreases |bytes|
  {
    if bytes == [] then []
    else if |bytes| <= size then [bytes]
    else
      var rest := Chunked(bytes[size..], size);
      assert Concat([bytes[..size]] + rest) == bytes[..size] + Concat(rest);
      [bytes[..size]] + rest
  }

  /** The chunks `createReadStream(path, { end: 43, highWaterMark })` delivers:
      the header window cut at the stream's buffer size, never more than 44 bytes. */
  function ReadStreamChunks(file: seq<byte>, highWaterMark: nat): (chunks: seq<seq<byte>>)
    requires highWaterMark > 0
    ensures Concat(chunks) == HeaderWindow(file)
    ensures |Concat(chunks)| <= ReadEnd + 1
  {
    Chunked(HeaderWindow(file), highWaterMark)
  }
}
