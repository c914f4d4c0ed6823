/**
 What a receiver of framed messages owes: a frame is a 4-byte magic, a 4-byte length and the
 payload, and the receiver resynchronises on the magic.

 `Parse` says it for a whole byte string. The repository has two codecs for this format. They
 differ in the window `w`, the number of bytes that must be left before an offset is looked at:
 4, enough for the magic, or 8, enough for a whole header.
 */
module Framing {
  import opened Wrappers
  import opened Bytes

  const MAGIC: nat := 0xDEADBEEF
  const MAX_MESSAGE_SIZE: nat := 16 * 1024 * 1024
  const MAGIC_LENGTH: nat := 4
  const HEADER_LENGTH: nat := 8

  type Window = w: nat | MAGIC_LENGTH <= w <= HEADER_LENGTH witness 4

  datatype Verdict = NeedMore | Junk | Frame(length: nat)

  datatype Parsed = Parsed(payloads: seq<bytes>, rest: bytes)

  /** The decision taken at one offset, given every byte from that offset on. */
  function Classify(w: Window, s: bytes): (v: Verdict)
    ensures v.Junk? ==> |s| >= w
    ensures v.Frame? ==> HEADER_LENGTH + v.length <= |s| && v.length <= MAX_MESSAGE_SIZE
  {
    if |s| < w then NeedMore
    else if WordAt(s, 0) != MAGIC then Junk
    else if |s| < HEADER_LENGTH then NeedMore
    else
      var length := WordAt(s, 4);
      if length > MAX_MESSAGE_SIZE then Junk
      else if HEADER_LENGTH + length > |s| then NeedMore
      else Frame(length)
  }

  /** Payloads of the complete frames in `s`, and the bytes to keep for the next read. */
  function Parse(w: Window, s: bytes): Parsed
    decreases |s|
  {
    match Classify(w, s)
    case NeedMore => Parsed([], s)
    case Junk => Parse(w, s[1..])
    case Frame(n) =>
      After([s[8..8 + n]], Parse(w, s[8 + n..]))
  }

  function After(earlier: seq<bytes>, p: Parsed): Parsed {
    Parsed(earlier + p.payloads, p.rest)
  }

  lemma AfterTwice(a: seq<bytes>, b: seq<bytes>, p: Parsed)
    ensures After(a, After(b, p)) == After(a + b, p)
  {
    assert a + (b + p.payloads) == (a + b) + p.payloads;
  }

  /** The frame of a payload that is within the cap. */
  function Encode(payload: bytes): (f: bytes)
    requires |payload| <= MAX_MESSAGE_SIZE
    ensures |f| == HEADER_LENGTH + |payload|
  {
    BigEndian(MAGIC) + BigEndian(|payload|) + payload
  }

  ghost predicate WithinCap(payloads: seq<bytes>) {
    forall i :: 0 <= i < |payloads| ==> |payloads[i]| <= MAX_MESSAGE_SIZE
  }

  /** The byte stream of a list of payloads sent one after the other. */
  ghost function EncodeAll(payloads: seq<bytes>): (s: bytes)
    requires WithinCap(payloads)
  {
    if payloads == [] then [] else Encode(payloads[0]) + EncodeAll(payloads[1..])
  }

  /** A receive buffer (`asio::streambuf`, `beast::flat_buffer`): bytes enter at the back. */
  class ReceiveBuffer {
    var data: bytes

    constructor ()
      ensures data == []
    {
      data := [];
    }

    method Commit(chunk: bytes)
      modifies this
      ensures data == old(data) + chunk
    {
      data := data + chunk;
    }

    method Consume(n: nat)
      requires n <= |data|
      modifies this
      ensures data == old(data)[n..]
    {
      data := data[n..];
    }
  }

  // ---------------------------------------------------------------------------------------
  // A scan loop over a buffer: `messages` taken so far, `offset` reached
  // ---------------------------------------------------------------------------------------

  ghost predicate Progress(w: Window, data: bytes, offset: nat, messages: seq<bytes>) {
    && offset <= |data|
    && Parse(w, data) == After(messages, Parse(w, data[offset..]))
  }

  lemma ScanStarts(w: Window, data: bytes)
    ensures Progress(w, data, 0, [])
  {
    assert data[0..] == data;
  }

  lemma ScanSkips(w: Window, data: bytes, offset: nat, messages: seq<bytes>)
    requires Progress(w, data, offset, messages)
    requires offset + w <= |data|
    requires WordAt(data, offset) != MAGIC
             || (offset + 8 <= |data| && WordAt(data, offset + 4) > MAX_MESSAGE_SIZE)
    ensures Progress(w, data, offset + 1, messages)
  {
    assert data[offset..][1..] == data[offset + 1..];
  }

  lemma ScanTakes(w: Window, data: bytes, offset: nat, n: nat, messages: seq<bytes>)
    requires Progress(w, data, offset, messages)
    requires offset + 8 + n <= |data| && WordAt(data, offset) == MAGIC
    requires n == WordAt(data, offset + 4) <= MAX_MESSAGE_SIZE
    ensures Progress(w, data, offset + 8 + n, messages + [data[offset + 8..offset + 8 + n]])
  {
    var s, payload := data[offset..], data[offset + 8..offset + 8 + n];
    assert Classify(w, s) == Frame(n);
    hide Classify, WordAt;
    assert s[8 + n..] == data[offset + 8 + n..];
    assert s[8..8 + n] == payload;
    AfterTwice(messages, [payload], Parse(w, data[offset + 8 + n..]));
  }

  /** The scan ends at an offset that is undecided, and keeps everything from there on. */
  lemma ScanStops(w: Window, data: bytes, offset: nat, messages: seq<bytes>)
    requires Progress(w, data, offset, messages)
    requires || offset + w > |data|
             || (WordAt(data, offset) == MAGIC && offset + 8 > |data|)
             || (WordAt(data, offset) == MAGIC && offset + 8 <= |data|
                 && WordAt(data, offset + 4) <= MAX_MESSAGE_SIZE && offset + 8 + WordAt(data, offset + 4) > |data|)
    ensures Parse(w, data) == Parsed(messages, data[offset..])
  {
  }

  // ---------------------------------------------------------------------------------------
  // The split of the stream into reads does not matter
  // ---------------------------------------------------------------------------------------

  /** Once an offset is decided, later bytes cannot change the decision. */
  lemma DecisionIsStable(w: Window, s: bytes, t: bytes)
    requires !Classify(w, s).NeedMore?
    ensures Classify(w, s + t) == Classify(w, s)
  {
  }

  /** Parsing `s + t` is parsing `s`, then parsing what was kept followed by `t`. */
  lemma {:induction false} ParseInTwoReads(w: Window, s: bytes, t: bytes)
    ensures Parse(w, s + t) == After(Parse(w, s).payloads, Parse(w, Parse(w, s).rest + t))
    decreases |s|
  {
    hide Classify, WordAt;
    var v := Classify(w, s);
    if !v.NeedMore? {
      DecisionIsStable(w, s, t);
    }
    match v
    case NeedMore =>
    case Junk =>
      assert (s + t)[1..] == s[1..] + t;
      ParseInTwoReads(w, s[1..], t);
    case Frame(n) =>
      assert (s + t)[8 + n..] == s[8 + n..] + t;
      assert (s + t)[8..8 + n] == s[8..8 + n];
      ParseInTwoReads(w, s[8 + n..], t);
      var tail := Parse(w, s[8 + n..]);
      AfterTwice([s[8..8 + n]], tail.payloads, Parse(w, tail.rest + t));
  }

  /** A receiver that appends each chunk to what it kept and extracts: one batch per chunk. */
  datatype Reception = Reception(batches: seq<seq<bytes>>, rest: bytes)

  ghost function Receive(w: Window, kept: bytes, chunks: seq<bytes>): (r: Reception)
    ensures |r.batches| == |chunks|
    decreases |chunks|
  {
    if chunks == [] then Reception([], kept)
    else
      var now := Parse(w, kept + chunks[0]);
      var later := Receive(w, now.rest, chunks[1..]);
      Reception([now.payloads] + later.batches, later.rest)
  }

  /** From any buffer that is itself a remainder, chunked and whole reception coincide. */
  lemma {:induction false} ChunkingFrom(w: Window, kept: bytes, chunks: seq<bytes>)
    requires Parse(w, kept) == Parsed([], kept)
    ensures Parsed(Flatten(Receive(w, kept, chunks).batches), Receive(w, kept, chunks).rest)
         == Parse(w, kept + Flatten(chunks))
    decreases |chunks|
  {
    hide Parse, Classify;
    if chunks == [] {
      assert kept + Flatten(chunks) == kept;
    } else {
      var now := Parse(w, kept + chunks[0]);
      Retention(w, kept + chunks[0]);
      ChunkingFrom(w, now.rest, chunks[1..]);
      assert kept + Flatten(chunks) == (kept + chunks[0]) + Flatten(chunks[1..]);
      ParseInTwoReads(w, kept + chunks[0], Flatten(chunks[1..]));
      var r := Receive(w, kept, chunks);
      assert r.batches[1..] == Receive(w, now.rest, chunks[1..]).batches;
    }
  }

  /** Every split of every byte string gives the payloads and remainder of the whole string. */
  lemma ChunkingNeverMatters(w: Window, chunks: seq<bytes>)
    ensures Parsed(Flatten(Receive(w, [], chunks).batches), Receive(w, [], chunks).rest) == Parse(w, Flatten(chunks))
  {
    ChunkingFrom(w, [], chunks);
    assert [] + Flatten(chunks) == Flatten(chunks);
  }

  // ---------------------------------------------------------------------------------------
  // What is kept
  // ---------------------------------------------------------------------------------------

  /**
   The remainder is a suffix of the input, holds no further frame, and is bounded: less than the
   window, or a frame header whose payload has not arrived in full.
   */
  lemma {:induction false} Retention(w: Window, s: bytes)
    ensures var p := Parse(w, s);
            && |p.rest| <= |s| && p.rest == s[|s| - |p.rest|..]
            && Classify(w, p.rest).NeedMore? && Parse(w, p.rest) == Parsed([], p.rest)
            && (|p.rest| < w
                || (WordAt(p.rest, 0) == MAGIC && |p.rest| < HEADER_LENGTH + MAX_MESSAGE_SIZE))
    decreases |s|
  {
    hide WordAt;
    match Classify(w, s)
    case NeedMore =>
    case Junk => Retention(w, s[1..]);
    case Frame(n) => Retention(w, s[8 + n..]);
  }

  // ---------------------------------------------------------------------------------------
  // Round trip and resynchronisation
  // ---------------------------------------------------------------------------------------

  /** `0xDEADBEEF` starts with `DE` and has no other `DE`, so no proper prefix is also a suffix. */
  lemma MagicBytes(s: bytes, i: nat)
    requires i + 4 <= |s|
    ensures WordAt(s, i) == MAGIC <==> s[i..i + 4] == [0xDE, 0xAD, 0xBE, 0xEF]
    ensures BigEndian(MAGIC) == [0xDE, 0xAD, 0xBE, 0xEF]
  {
    BigEndianOfWord(s, i);
  }

  /** The frame byte by byte: magic, length with the most significant byte first, payload. */
  lemma WireFormat(payload: bytes)
    requires |payload| <= MAX_MESSAGE_SIZE
    ensures var f := Encode(payload);
            && |f| == 8 + |payload|
            && f[0] == 0xDE && f[1] == 0xAD && f[2] == 0xBE && f[3] == 0xEF
            && f[4] as int * 16777216 + f[5] as int * 65536 + f[6] as int * 256 + f[7] as int == |payload|
            && f[8..] == payload
  {
    WordOfBigEndian(|payload|);
    var f := Encode(payload);
    assert WordAt(f, 4) == WordAt(BigEndian(|payload|), 0);
    assert f[0..4] == BigEndian(MAGIC);
    MagicBytes(f, 0);
  }

  lemma EncodeIsAFrame(w: Window, payload: bytes, t: bytes)
    requires |payload| <= MAX_MESSAGE_SIZE
    ensures Parse(w, Encode(payload) + t) == After([payload], Parse(w, t))
  {
    var s := Encode(payload) + t;
    WordOfBigEndian(MAGIC);
    WordOfBigEndian(|payload|);
    assert WordAt(s, 0) == WordAt(BigEndian(MAGIC), 0);
    assert WordAt(s, 4) == WordAt(BigEndian(|payload|), 0);
    assert s[8..8 + |payload|] == payload;
    assert s[8 + |payload|..] == t;
  }

  lemma {:induction false} RoundTrip(w: Window, payloads: seq<bytes>)
    requires WithinCap(payloads)
    ensures Parse(w, EncodeAll(payloads)) == Parsed(payloads, [])
  {
    if payloads != [] {
      EncodeIsAFrame(w, payloads[0], EncodeAll(payloads[1..]));
      RoundTrip(w, payloads[1..]);
    }
  }

  /**
   Junk in which every complete magic declares a length above the cap; the length field is read
   in the combined stream, where it may already belong to the first frame.
   */
  ghost predicate Benign(junk: bytes, following: bytes)
    requires |following| >= 8
  {
    forall i :: 0 <= i <= |junk| - 4 && WordAt(junk, i) == MAGIC ==> WordAt(junk + following, i + 4) > MAX_MESSAGE_SIZE
  }

  lemma {:induction false} BenignJunkIsSkipped(w: Window, junk: bytes, payloads: seq<bytes>)
    requires payloads != [] && WithinCap(payloads)
    requires |EncodeAll(payloads)| >= 8 && Benign(junk, EncodeAll(payloads))
    ensures Parse(w, junk + EncodeAll(payloads)) == Parsed(payloads, [])
    decreases |junk|
  {
    var stream := EncodeAll(payloads);
    var all := junk + stream;
    if junk == [] {
      assert all == stream;
      RoundTrip(w, payloads);
    } else {
      assert Classify(w, all).Junk? by {
        MagicBytes(all, 0);
        EncodeAllIsLong(payloads);
        if |junk| >= 4 {
          assert WordAt(junk, 0) == WordAt(all, 0);
        } else {
          assert all[..4][|junk|] == 0xDE;
        }
      }
      assert all[1..] == junk[1..] + stream;
      forall i | 0 <= i <= |junk[1..]| - 4 && WordAt(junk[1..], i) == MAGIC
        ensures WordAt(junk[1..] + stream, i + 4) > MAX_MESSAGE_SIZE
      {
        assert WordAt(junk[1..], i) == WordAt(junk, i + 1);
        assert WordAt(junk[1..] + stream, i + 4) == WordAt(all, i + 5);
      }
      BenignJunkIsSkipped(w, junk[1..], payloads);
    }
  }

  lemma EncodeAllIsLong(payloads: seq<bytes>)
    requires payloads != [] && WithinCap(payloads)
    ensures |EncodeAll(payloads)| >= 8
    ensures EncodeAll(payloads)[..4] == [0xDE, 0xAD, 0xBE, 0xEF]
  {
    MagicBytes(Encode(payloads[0]), 0);
  }

  /** Resynchronisation loses nothing after benign junk. */
  lemma Resynchronises(w: Window, junk: bytes, payloads: seq<bytes>)
    requires payloads != [] && WithinCap(payloads)
    ensures |EncodeAll(payloads)| >= 8
    ensures Benign(junk, EncodeAll(payloads)) ==> Parse(w, junk + EncodeAll(payloads)) == Parsed(payloads, [])
  {
    EncodeAllIsLong(payloads);
    if Benign(junk, EncodeAll(payloads)) {
      BenignJunkIsSkipped(w, junk, payloads);
    }
  }

  /** The messages that follow the junk all arrive, after the junk's own frames. */
  ghost predicate Delivers(w: Window, junk: bytes, payloads: seq<bytes>)
    requires WithinCap(payloads)
  {
    Parse(w, junk + EncodeAll(payloads)) == After(Parse(w, junk).payloads, Parsed(payloads, []))
  }
}
