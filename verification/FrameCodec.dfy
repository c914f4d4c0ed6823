/**
 The codec that client and server run. It looks at an offset as soon as four bytes are left, and
 keeps from the first incomplete frame on.
 */
module FrameCodec {
  import opened Bytes
  import opened Framing

  const WINDOW: Window := MAGIC_LENGTH

  /** Fills a frame in place; an oversized payload gives the empty vector. */
  method EncodeFrame(payload: bytes) returns (frame: bytes)
    ensures |payload| > MAX_MESSAGE_SIZE ==> frame == []
    ensures |payload| <= MAX_MESSAGE_SIZE ==> frame == Encode(payload)
  {
    if |payload| > MAX_MESSAGE_SIZE {
      return [];
    }
    var buffer := new byte[HEADER_LENGTH + |payload|];
    var magic, length := BigEndian(MAGIC), BigEndian(|payload|);
    forall i | 0 <= i < 4 { buffer[i] := magic[i]; }
    forall i | 0 <= i < 4 { buffer[4 + i] := length[i]; }
    forall i | 0 <= i < |payload| { buffer[8 + i] := payload[i]; }
    frame := buffer[..];
    assert frame == Encode(payload);
  }

  /** Scans the buffer, consumes what was resolved and returns the payloads of complete frames. */
  method ExtractFrames(buffer: ReceiveBuffer) returns (messages: seq<bytes>)
    modifies buffer
    ensures Parsed(messages, buffer.data) == Parse(WINDOW, old(buffer.data))
  {
    if |buffer.data| < MAGIC_LENGTH {
      return [];
    }
    var bytesToConsume;
    messages, bytesToConsume := ScanFrames(buffer.data);
    buffer.Consume(bytesToConsume);
  }

  /** The scan loop of `ExtractFrames`, over the contiguous copy of the buffer. */
  method ScanFrames(data: bytes) returns (messages: seq<bytes>, bytesToConsume: nat)
    ensures bytesToConsume <= |data|
    ensures Parse(WINDOW, data) == Parsed(messages, data[bytesToConsume..])
  {
    hide Parse, Classify, Progress, After, WordAt;
    messages := [];
    var offset := 0;
    var firstIncomplete := |data|;
    ScanStarts(WINDOW, data);
    while offset + MAGIC_LENGTH <= |data|
      invariant offset <= |data| && firstIncomplete == |data|
      invariant Progress(WINDOW, data, offset, messages)
      decreases |data| - offset
    {
      if WordAt(data, offset) != MAGIC {
        ScanSkips(WINDOW, data, offset, messages);
        offset := offset + 1;
        continue;
      }
      if offset + HEADER_LENGTH > |data| {
        firstIncomplete := offset;
        break;
      }
      var length := WordAt(data, offset + 4);
      if length > MAX_MESSAGE_SIZE {
        ScanSkips(WINDOW, data, offset, messages);
        offset := offset + 1;
        continue;
      }
      var total := HEADER_LENGTH + length;
      if offset + total > |data| {
        firstIncomplete := offset;
        break;
      }
      ScanTakes(WINDOW, data, offset, length, messages);
      messages := messages + [data[offset + 8..offset + total]];
      offset := offset + total;
    }
    ScanStops(WINDOW, data, offset, messages);
    bytesToConsume := if firstIncomplete != |data| then firstIncomplete else offset;
  }

  // ---------------------------------------------------------------------------------------
  // When junk is harmless
  // ---------------------------------------------------------------------------------------

  /** A kept magic whose length field, completed by the next frame's magic, would be accepted. */
  predicate PendingHeader(rest: bytes) {
    |rest| >= HEADER_LENGTH || (|rest| > MAGIC_LENGTH && rest[4] == 0)
  }

  lemma NothingPendingIsBenign(rest: bytes, following: bytes)
    requires Classify(WINDOW, rest).NeedMore? && !PendingHeader(rest)
    requires |following| >= 8 && following[..4] == [0xDE, 0xAD, 0xBE, 0xEF]
    ensures Benign(rest, following)
  {
    if |rest| >= 4 {
      MagicBytes(rest, 0);
      assert (rest + following)[4] == if |rest| == 4 then following[..4][0] else rest[4];
      forall i | 0 <= i <= |rest| - 4 && WordAt(rest, i) == MAGIC
        ensures WordAt(rest + following, i + 4) > MAX_MESSAGE_SIZE
      {
        MagicBytes(rest, i);
        assert rest[i..i + 4][0] == 0xDE;
        assert i == 0;
      }
    }
  }

  /** With a header pending, a single empty message is enough to be swallowed. */
  lemma PendingHeaderSwallows(rest: bytes)
    requires Classify(WINDOW, rest).NeedMore? && PendingHeader(rest)
    ensures WithinCap([[]]) && Parse(WINDOW, rest + EncodeAll([[]])).payloads != [[]]
  {
    var stream := EncodeAll([[]]);
    assert stream == Encode([]);
    assert stream == [0xDE, 0xAD, 0xBE, 0xEF, 0, 0, 0, 0] by { MagicBytes(stream, 0); }
    Retention(WINDOW, rest);
    hide EncodeAll;
    var all := rest + stream;
    assert WordAt(all, 0) == WordAt(rest, 0);
    if |rest| >= 8 {
      assert WordAt(all, 4) == WordAt(rest, 4);
      if Classify(WINDOW, all).Frame? {
        assert |Parse(WINDOW, all).payloads[0]| > 0;
      }
    } else {
      assert all[7] >= 0xAD;
    }
  }

  lemma NothingPendingDelivers(junk: bytes, payloads: seq<bytes>)
    requires payloads != [] && WithinCap(payloads)
    requires !PendingHeader(Parse(WINDOW, junk).rest)
    ensures Delivers(WINDOW, junk, payloads)
  {
    var rest, stream := Parse(WINDOW, junk).rest, EncodeAll(payloads);
    Retention(WINDOW, junk);
    EncodeAllIsLong(payloads);
    NothingPendingIsBenign(rest, stream);
    BenignJunkIsSkipped(WINDOW, rest, payloads);
    ParseInTwoReads(WINDOW, junk, stream);
  }

  lemma PendingLoses(junk: bytes)
    requires PendingHeader(Parse(WINDOW, junk).rest)
    ensures WithinCap([[]]) && !Delivers(WINDOW, junk, [[]])
  {
    hide Parse, Classify, EncodeAll, PendingHeader;
    Retention(WINDOW, junk);
    PendingHeaderSwallows(Parse(WINDOW, junk).rest);
    ParseInTwoReads(WINDOW, junk, EncodeAll([[]]));
    var own, late := Parse(WINDOW, junk).payloads, Parse(WINDOW, Parse(WINDOW, junk).rest + EncodeAll([[]])).payloads;
    assert (own + late)[|own|..] == late && (own + [[]])[|own|..] == [[]];
  }

  /** Exactly when junk is harmless to every message that follows: no acceptable header is pending. */
  lemma JunkIsHarmlessIff(junk: bytes)
    ensures (forall payloads :: payloads != [] && WithinCap(payloads) ==> Delivers(WINDOW, junk, payloads))
            <==> !PendingHeader(Parse(WINDOW, junk).rest)
  {
    if PendingHeader(Parse(WINDOW, junk).rest) {
      PendingLoses(junk);
    } else {
      forall payloads | payloads != [] && WithinCap(payloads)
        ensures Delivers(WINDOW, junk, payloads)
      {
        NothingPendingDelivers(junk, payloads);
      }
    }
  }

  /** Corruption can cost a valid frame: a stray header for 16 bytes swallows the frame behind it. */
  lemma ValidFrameAfterCorruptionIsLost()
    ensures var junk := [0xDE, 0xAD, 0xBE, 0xEF, 0, 0, 0, 16];
            && Parse(WINDOW, junk + Encode([])).payloads == []
            && !Delivers(WINDOW, junk, [[]])
  {
    var junk := [0xDE, 0xAD, 0xBE, 0xEF, 0, 0, 0, 16];
    var all := junk + Encode([]);
    assert WordAt(all, 0) == MAGIC && WordAt(all, 4) == 16;
    assert EncodeAll([[]]) == Encode([]);
    assert Classify(WINDOW, all).NeedMore?;
  }
}
