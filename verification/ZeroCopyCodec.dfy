/**
 The zero-copy codec for the same format. It looks at an offset only when a whole header is left,
 hands each payload to a callback, and consumes what it resolved on every exit, also when the
 callback throws.
 */
module ZeroCopyCodec {
  import opened Wrappers
  import opened Bytes
  import opened Framing
  import FrameCodec

  const WINDOW: Window := HEADER_LENGTH

  /** An outbound frame: the two buffers handed to one write. */
  datatype OutFrame = OutFrame(header: bytes, payload: bytes)

  /** `None` is the `length_error` of an oversized payload. */
  function EncodeFrame(payload: bytes): (r: Option<OutFrame>)
    ensures r.Some? <==> |payload| <= MAX_MESSAGE_SIZE
    ensures r.Some? ==> r.value.header + r.value.payload == Encode(payload) && |r.value.header| == HEADER_LENGTH
  {
    if |payload| > MAX_MESSAGE_SIZE then None
    else Some(OutFrame(BigEndian(MAGIC) + BigEndian(|payload|), payload))
  }

  /** The callback throws on its call number `throwAt`, if the buffer holds that many frames. */
  ghost predicate Interrupted(data: bytes, throwAt: nat, delivered: seq<bytes>, offset: nat) {
    var whole := Parse(WINDOW, data);
    && throwAt < |whole.payloads| && offset <= |data|
    && delivered == whole.payloads[..throwAt]
    && |whole.payloads[throwAt]| <= MAX_MESSAGE_SIZE
    && Encode(whole.payloads[throwAt]) <= data[offset..]
    && Parse(WINDOW, data[offset..]) == Parsed(whole.payloads[throwAt..], whole.rest)
  }

  method Scan(data: bytes, throwAt: nat) returns (delivered: seq<bytes>, count: nat, offset: nat, thrown: bool)
    ensures offset <= |data| && count == |delivered|
    ensures thrown <==> throwAt < |Parse(WINDOW, data).payloads|
    ensures !thrown ==> Parse(WINDOW, data) == Parsed(delivered, data[offset..])
    ensures thrown ==> Interrupted(data, throwAt, delivered, offset)
  {
    hide Parse, Classify, Progress, After, WordAt, Interrupted;
    delivered, count, offset, thrown := [], 0, 0, false;
    ScanStarts(WINDOW, data);
    while offset + HEADER_LENGTH <= |data|
      invariant offset <= |data| && count == |delivered| <= throwAt && !thrown
      invariant Progress(WINDOW, data, offset, delivered)
      decreases |data| - offset
    {
      if WordAt(data, offset) != MAGIC {
        ScanSkips(WINDOW, data, offset, delivered);
        offset := offset + 1;
        continue;
      }
      var length := WordAt(data, offset + 4);
      if length > MAX_MESSAGE_SIZE {
        ScanSkips(WINDOW, data, offset, delivered);
        offset := offset + 1;
        continue;
      }
      var total := HEADER_LENGTH + length;
      if offset + total > |data| {
        break;
      }
      if count == throwAt {
        ThrowsHere(data, offset, delivered);
        thrown := true;
        return;
      }
      ScanTakes(WINDOW, data, offset, length, delivered);
      delivered := delivered + [data[offset + 8..offset + total]];
      count := count + 1;
      offset := offset + total;
    }
    ScanStops(WINDOW, data, offset, delivered);
  }

  /** A complete frame is the encoding of its payload. */
  lemma FrameIsEncoding(s: bytes, n: nat)
    requires 8 + n <= |s| && n <= MAX_MESSAGE_SIZE
    requires WordAt(s, 0) == MAGIC && WordAt(s, 4) == n
    ensures Encode(s[8..8 + n]) == s[..8 + n]
  {
    BigEndianOfWord(s, 0);
    BigEndianOfWord(s, 4);
    hide WordAt, BigEndian;
    assert s[..8 + n] == s[0..4] + s[4..8] + s[8..8 + n];
  }

  lemma FrameAt(data: bytes, offset: nat)
    requires offset + 8 <= |data| && WordAt(data, offset) == MAGIC
    requires WordAt(data, offset + 4) <= MAX_MESSAGE_SIZE && offset + 8 + WordAt(data, offset + 4) <= |data|
    ensures var s, n := data[offset..], WordAt(data, offset + 4);
            Classify(WINDOW, s) == Frame(n) && Encode(s[8..8 + n]) <= s
  {
    hide Encode;
    FrameIsEncoding(data[offset..], WordAt(data, offset + 4));
  }

  /** At a complete frame, the next payload is the undelivered one. */
  lemma ThrowsHere(data: bytes, offset: nat, delivered: seq<bytes>)
    requires Progress(WINDOW, data, offset, delivered)
    requires offset + 8 <= |data| && WordAt(data, offset) == MAGIC
    requires WordAt(data, offset + 4) <= MAX_MESSAGE_SIZE && offset + 8 + WordAt(data, offset + 4) <= |data|
    ensures |delivered| < |Parse(WINDOW, data).payloads| && Interrupted(data, |delivered|, delivered, offset)
  {
    hide Classify, WordAt, Encode;
    FrameAt(data, offset);
    var s, n := data[offset..], WordAt(data, offset + 4);
    assert Parse(WINDOW, s).payloads[0] == s[8..8 + n];
  }

  /** Delivers every complete frame in arrival order and consumes what the scan resolved. */
  method Decode(buffer: ReceiveBuffer, throwAt: nat) returns (delivered: seq<bytes>, count: nat, thrown: bool)
    modifies buffer
    ensures count == |delivered|
    ensures thrown <==> throwAt < |Parse(WINDOW, old(buffer.data)).payloads|
    ensures !thrown ==> Parse(WINDOW, old(buffer.data)) == Parsed(delivered, buffer.data)
    ensures thrown ==> exists offset: nat :: Interrupted(old(buffer.data), throwAt, delivered, offset)
                                        && offset <= |old(buffer.data)| && buffer.data == old(buffer.data)[offset..]
  {
    if |buffer.data| < HEADER_LENGTH {
      return [], 0, false;
    }
    var offset;
    delivered, count, offset, thrown := Scan(buffer.data, throwAt);
    if offset > 0 {
      buffer.Consume(offset);
    }
  }

  /**
   A throwing callback costs nothing: what was delivered before, followed by what the buffer left
   behind would deliver, is what the whole buffer would have delivered; and the undelivered frame
   comes first, whole.
   */
  lemma ThrowLosesNothing(data: bytes, throwAt: nat, delivered: seq<bytes>, offset: nat)
    requires Interrupted(data, throwAt, delivered, offset)
    ensures offset <= |data| && |delivered| == throwAt
    ensures var whole, later := Parse(WINDOW, data), Parse(WINDOW, data[offset..]);
            && delivered + later.payloads == whole.payloads && later.rest == whole.rest
            && later.payloads != [] && |later.payloads[0]| <= MAX_MESSAGE_SIZE
            && |data| >= offset + 8 + |later.payloads[0]|
            && data[offset..offset + 8 + |later.payloads[0]|] == Encode(later.payloads[0])
  {
    hide Parse, Encode;
  }

  // ---------------------------------------------------------------------------------------
  // The two codecs agree on every stream
  // ---------------------------------------------------------------------------------------

  /** `narrow` is `wide` without a front part in which no magic starts. */
  ghost predicate Trails(narrow: bytes, wide: bytes) {
    && |narrow| <= |wide| && narrow == wide[|wide| - |narrow|..]
    && (narrow == wide || |narrow| >= 3)
    && forall i :: 0 <= i < |wide| - |narrow| ==> WordAt(wide, i) != MAGIC
  }

  lemma TrailsItself(s: bytes)
    ensures Trails(s, s)
  {
  }

  lemma WordAtTail(s: bytes, i: nat)
    requires i + 5 <= |s|
    ensures WordAt(s[1..], i) == WordAt(s, i + 1)
  {
  }

  lemma TrailsOneMore(narrow: bytes, s: bytes)
    requires |s| >= 4 && WordAt(s, 0) != MAGIC && Trails(narrow, s[1..])
    ensures Trails(narrow, s)
  {
    hide WordAt;
    forall i | 0 < i < |s| - |narrow|
      ensures WordAt(s, i) != MAGIC
    {
      WordAtTail(s, i - 1);
    }
  }

  lemma {:induction false} NarrowTrailsWide(s: bytes)
    ensures var narrow, wide := Parse(MAGIC_LENGTH, s), Parse(HEADER_LENGTH, s);
            && narrow.payloads == wide.payloads
            && Parse(MAGIC_LENGTH, wide.rest) == Parsed([], narrow.rest)
            && Trails(narrow.rest, wide.rest)
    decreases |s|
  {
    hide WordAt, Trails;
    match Classify(MAGIC_LENGTH, s)
    case NeedMore => TrailsItself(s);
    case Junk =>
      NarrowTrailsWide(s[1..]);
      if |s| < HEADER_LENGTH {
        TrailsOneMore(Parse(MAGIC_LENGTH, s).rest, s);
      }
    case Frame(n) => NarrowTrailsWide(s[8 + n..]);
  }

  lemma {:induction false} AgreementFrom(narrow: bytes, wide: bytes, chunks: seq<bytes>)
    requires Parse(MAGIC_LENGTH, wide) == Parsed([], narrow)
    requires Trails(narrow, wide)
    ensures Receive(MAGIC_LENGTH, narrow, chunks).batches == Receive(HEADER_LENGTH, wide, chunks).batches
    ensures Trails(Receive(MAGIC_LENGTH, narrow, chunks).rest, Receive(HEADER_LENGTH, wide, chunks).rest)
    decreases |chunks|
  {
    hide Parse, Trails;
    if chunks != [] {
      ParseInTwoReads(MAGIC_LENGTH, wide, chunks[0]);
      var next := Parse(MAGIC_LENGTH, narrow + chunks[0]);
      assert Parse(MAGIC_LENGTH, wide + chunks[0]) == next;
      NarrowTrailsWide(wide + chunks[0]);
      AgreementFrom(next.rest, Parse(HEADER_LENGTH, wide + chunks[0]).rest, chunks[1..]);
    }
  }

  /**
   After each chunk of any chunk sequence both codecs have delivered the same payloads; the first
   codec's remainder is a suffix of the second's, and only bytes that start no magic were dropped.
   */
  lemma CodecsAgree(chunks: seq<bytes>)
    ensures Receive(MAGIC_LENGTH, [], chunks).batches == Receive(HEADER_LENGTH, [], chunks).batches
    ensures Trails(Receive(MAGIC_LENGTH, [], chunks).rest, Receive(HEADER_LENGTH, [], chunks).rest)
  {
    AgreementFrom([], [], chunks);
  }

  // ---------------------------------------------------------------------------------------
  // When junk is harmless
  // ---------------------------------------------------------------------------------------

  predicate HeaderAt(rest: bytes, i: nat) {
    i + 4 <= |rest| && WordAt(rest, i) == MAGIC && FrameCodec.PendingHeader(rest[i..])
  }

  /** Somewhere in the kept bytes stands a magic whose length field would be accepted. */
  ghost predicate HoldsHeader(rest: bytes) {
    exists i: nat :: HeaderAt(rest, i)
  }

  lemma HeaderInTail(rest: bytes, i: nat)
    requires |rest| > 0
    ensures HeaderAt(rest, i + 1) <==> HeaderAt(rest[1..], i)
  {
    hide FrameCodec.PendingHeader, WordAt;
    if i + 5 <= |rest| {
      WordAtTail(rest, i);
      assert rest[1..][i..] == rest[i + 1..];
    }
  }

  lemma HoldsInTail(rest: bytes)
    requires |rest| > 0
    ensures HoldsHeader(rest) <==> HeaderAt(rest, 0) || HoldsHeader(rest[1..])
  {
    hide HeaderAt;
    if HoldsHeader(rest) {
      var i: nat :| HeaderAt(rest, i);
      if i > 0 {
        HeaderInTail(rest, i - 1);
      }
    }
    if HoldsHeader(rest[1..]) {
      var i: nat :| HeaderAt(rest[1..], i);
      HeaderInTail(rest, i);
    }
  }

  /** Two magics do not overlap. */
  lemma NoOverlap(s: bytes, i: nat)
    requires 0 < i < 4 && i + 4 <= |s| && WordAt(s, 0) == MAGIC
    ensures WordAt(s, i) != MAGIC
  {
    hide WordAt;
    MagicBytes(s, 0);
    MagicBytes(s, i);
    assert s[0..4][i] == s[i..i + 4][0];
  }

  /** In fewer than eight bytes, a header is held exactly if the first codec would keep it. */
  lemma {:induction false} ShortRest(rest: bytes)
    requires |rest| < HEADER_LENGTH
    ensures HoldsHeader(rest) <==> FrameCodec.PendingHeader(Parse(MAGIC_LENGTH, rest).rest)
    decreases |rest|
  {
    hide WordAt;
    if |rest| < 4 {
    } else if WordAt(rest, 0) != MAGIC {
      HoldsInTail(rest);
      ShortRest(rest[1..]);
    } else {
      assert rest[0..] == rest && (FrameCodec.PendingHeader(rest) <==> HeaderAt(rest, 0));
      forall i: nat | HeaderAt(rest, i)
        ensures i == 0
      {
        if i > 0 {
          NoOverlap(rest, i);
        }
      }
    }
  }

  lemma HeldIsPending(junk: bytes)
    ensures HoldsHeader(Parse(WINDOW, junk).rest) <==> FrameCodec.PendingHeader(Parse(MAGIC_LENGTH, junk).rest)
  {
    var rest := Parse(WINDOW, junk).rest;
    NarrowTrailsWide(junk);
    Retention(WINDOW, junk);
    if |rest| < HEADER_LENGTH {
      ShortRest(rest);
    } else {
      assert rest[0..] == rest && HeaderAt(rest, 0);
      assert Parse(MAGIC_LENGTH, rest) == Parsed([], rest);
    }
  }

  /** Both codecs deliver what follows the junk, or neither does. */
  lemma DeliverAlike(junk: bytes, payloads: seq<bytes>)
    requires WithinCap(payloads)
    ensures Delivers(WINDOW, junk, payloads) <==> Delivers(MAGIC_LENGTH, junk, payloads)
  {
    hide Parse, WordAt, EncodeAll;
    NarrowTrailsWide(junk);
    NarrowTrailsWide(junk + EncodeAll(payloads));
  }

  /** Exactly when junk is harmless to every message that follows: no acceptable header is held. */
  lemma JunkIsHarmlessIff(junk: bytes)
    ensures (forall payloads :: payloads != [] && WithinCap(payloads) ==> Delivers(WINDOW, junk, payloads))
            <==> !HoldsHeader(Parse(WINDOW, junk).rest)
  {
    hide Delivers, HoldsHeader, FrameCodec.PendingHeader, Parse;
    HeldIsPending(junk);
    FrameCodec.JunkIsHarmlessIff(junk);
    forall payloads | WithinCap(payloads)
      ensures Delivers(WINDOW, junk, payloads) <==> Delivers(MAGIC_LENGTH, junk, payloads)
    {
      DeliverAlike(junk, payloads);
    }
  }
}
