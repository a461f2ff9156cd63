/**
 * The binary branch of `_handleMessage`: the put/get transfer state machine
 * over the integer `binaryState`, written as a function from the state, the
 * two transfer buffers and one inbound binary frame to the new state, the new
 * download buffer, the frames sent back and the events emitted.
 */
module Transfer {
  import opened Bytes
  import opened Frame
  import Utf8

  /** The values `binaryState` takes. */
  const IDLE: int := 0
  const PUT_AWAIT_ACK: int := 11
  const PUT_AWAIT_FINAL: int := 12
  const GET_AWAIT_ACK: int := 21
  const GET_RECEIVING: int := 22
  const GET_AWAIT_FINAL: int := 23
  const GET_VERSION: int := 31

  /** Put payloads go out in slices of this many bytes. */
  const CHUNK_SIZE: nat := 1024

  /** The one-byte `0x00` frame that asks the device for the next chunk. */
  const CONTINUE: Message := Binary([0])

  predicate KnownState(st: int)
  {
    st == IDLE || st == PUT_AWAIT_ACK || st == PUT_AWAIT_FINAL || st == GET_AWAIT_ACK
    || st == GET_RECEIVING || st == GET_AWAIT_FINAL || st == GET_VERSION
  }

  /** What the client emits: `connected`, or `output` with a payload. */
  datatype Event = Connected | Output(payload: Message)

  /**
   * `sendFileData.slice(offset, offset + 1024)` for offset = 0, 1024, ...
   * while offset < length.
   */
  function Chunks(d: seq<byte>): (parts: seq<seq<byte>>)
    ensures forall i :: 0 <= i < |parts| ==> 0 < |parts[i]| <= CHUNK_SIZE
    decreases |d|
  {
    if d == [] then []
    else
      var k := if |d| <= CHUNK_SIZE then |d| else CHUNK_SIZE;
      [d[..k]] + Chunks(d[k..])
  }

  /**
   * There are ceil(length / 1024) slices, and together they are the data,
   * in order.
   */
  lemma {:induction false} ChunksSpec(d: seq<byte>)
    ensures Flatten(Chunks(d)) == d
    ensures |Chunks(d)| == (|d| + CHUNK_SIZE - 1) / CHUNK_SIZE
    decreases |d|
  {
    if d != [] {
      var k := if |d| <= CHUNK_SIZE then |d| else CHUNK_SIZE;
      var rest := Chunks(d[k..]);
      ChunksSpec(d[k..]);
      assert Chunks(d) == [d[..k]] + rest;
      assert ([d[..k]] + rest)[1..] == rest;
      assert d == d[..k] + d[k..];
    }
  }

  function Binaries(parts: seq<seq<byte>>): (ms: seq<Message>)
    ensures |ms| == |parts|
  {
    seq(|parts|, i requires 0 <= i < |parts| => Binary(parts[i]))
  }

  /** The effect of one inbound frame. */
  datatype Reaction = Reaction(state: int, getFileData: seq<byte>, sends: seq<Message>, events: seq<Event>)

  /** The `switch (this.binaryState)` of `_handleMessage` for a binary frame `data`. */
  function OnBinary(st: int, sendFileData: seq<byte>, getFileData: seq<byte>, data: seq<byte>): Reaction
  {
    if st == PUT_AWAIT_ACK then
      if DecodeResp(data) == 0 then Reaction(PUT_AWAIT_FINAL, getFileData, Binaries(Chunks(sendFileData)), [])
      else Reaction(st, getFileData, [], [])
    else if st == PUT_AWAIT_FINAL then
      Reaction(IDLE, getFileData, [], [])
    else if st == GET_AWAIT_ACK then
      if DecodeResp(data) == 0 then Reaction(GET_RECEIVING, getFileData, [CONTINUE], [])
      else Reaction(st, getFileData, [], [])
    else if st == GET_RECEIVING then
      var sz := ChunkLength(data);
      if |data| == 2 + sz then
        if sz == 0 then Reaction(GET_AWAIT_FINAL, getFileData, [], [])
        else Reaction(GET_RECEIVING, getFileData + data[2..], [CONTINUE], [])
      else Reaction(IDLE, getFileData, [], [])
    else if st == GET_AWAIT_FINAL then
      Reaction(IDLE, getFileData, [],
               if DecodeResp(data) == 0 then [Output(Text(Utf8.Decode(getFileData)))] else [])
    else if st == GET_VERSION then
      Reaction(IDLE, getFileData, [], [])
    else
      Reaction(st, getFileData, [], [])
  }

  /** A run of binary frames, one after the other; the sends and events accumulate. */
  function Feed(st: int, sendFileData: seq<byte>, getFileData: seq<byte>, frames: seq<seq<byte>>): Reaction
    decreases |frames|
  {
    if frames == [] then Reaction(st, getFileData, [], [])
    else
      var step := OnBinary(st, sendFileData, getFileData, frames[0]);
      var rest := Feed(step.state, sendFileData, step.getFileData, frames[1..]);
      Reaction(rest.state, rest.getFileData, step.sends + rest.sends, step.events + rest.events)
  }

  // ------------------------------------------------------------ properties

  /**
   * The download buffer only grows, and only in state 22, where each growth
   * is answered with `0x00`; the only event a frame causes is the decoded
   * download, in state 23, which returns to idle.
   */
  lemma {:induction false} OnBinaryBuffer(st: int, sd: seq<byte>, gd: seq<byte>, data: seq<byte>)
    ensures var r := OnBinary(st, sd, gd, data);
      && |gd| <= |r.getFileData| && r.getFileData[..|gd|] == gd
      && (r.getFileData != gd ==> st == GET_RECEIVING && r.sends == [CONTINUE])
      && (r.events != [] ==> st == GET_AWAIT_FINAL && r.state == IDLE)
  {
  }

  /** Over any run of frames the download buffer is only ever appended to. */
  lemma {:induction false} FeedKeepsBuffer(st: int, sd: seq<byte>, gd: seq<byte>, frames: seq<seq<byte>>)
    ensures var r := Feed(st, sd, gd, frames);
      |gd| <= |r.getFileData| && r.getFileData[..|gd|] == gd
    decreases |frames|
  {
    if frames != [] {
      var step := OnBinary(st, sd, gd, frames[0]);
      OnBinaryBuffer(st, sd, gd, frames[0]);
      FeedKeepsBuffer(step.state, sd, step.getFileData, frames[1..]);
      var rest := Feed(step.state, sd, step.getFileData, frames[1..]);
      assert rest.getFileData[..|gd|] == rest.getFileData[..|step.getFileData|][..|gd|];
    }
  }

  /** Every transition stays within the seven states. */
  lemma {:induction false} KnownStatePreserved(st: int, sd: seq<byte>, gd: seq<byte>, data: seq<byte>)
    requires KnownState(st)
    ensures KnownState(OnBinary(st, sd, gd, data).state)
    ensures OnBinary(st, sd, gd, data).state != GET_VERSION
  {
  }

  /**
   * First reply of a put: on status 0 the whole payload goes out as slices of
   * at most 1024 bytes that concatenate to it (none for an empty file) and
   * the state moves to 12; on any other reply nothing happens.
   */
  lemma {:induction false} PutFirstReply(sd: seq<byte>, gd: seq<byte>, data: seq<byte>)
    ensures var r := OnBinary(PUT_AWAIT_ACK, sd, gd, data);
      if DecodeResp(data) == 0 then
        && r.state == PUT_AWAIT_FINAL && r.getFileData == gd && r.events == []
        && |r.sends| == (|sd| + CHUNK_SIZE - 1) / CHUNK_SIZE
        && (forall i :: 0 <= i < |r.sends| ==> r.sends[i].Binary? && 0 < |r.sends[i].bytes| <= CHUNK_SIZE)
        && Flatten(seq(|r.sends|, i requires 0 <= i < |r.sends| => r.sends[i].bytes)) == sd
        && (sd == [] ==> r.sends == [])
      else
        r == Reaction(PUT_AWAIT_ACK, gd, [], [])
  {
    if DecodeResp(data) == 0 {
      var r := OnBinary(PUT_AWAIT_ACK, sd, gd, data);
      ChunksSpec(sd);
      assert seq(|r.sends|, i requires 0 <= i < |r.sends| => r.sends[i].bytes) == Chunks(sd);
    }
  }

  /** First reply of a get: status 0 sends one `0x00` and moves to 22; else nothing. */
  lemma {:induction false} GetFirstReply(sd: seq<byte>, gd: seq<byte>, data: seq<byte>)
    ensures var r := OnBinary(GET_AWAIT_ACK, sd, gd, data);
      r == if DecodeResp(data) == 0 then Reaction(GET_RECEIVING, gd, [CONTINUE], [])
           else Reaction(GET_AWAIT_ACK, gd, [], [])
  {
  }

  /**
   * A frame in state 22 with length prefix `sz`: a well-framed non-empty chunk
   * is appended whole and answered with `0x00`; an empty one ends the file
   * silently; a length mismatch drops back to 0 and leaves the buffer alone.
   */
  lemma {:induction false} DownloadChunk(sd: seq<byte>, gd: seq<byte>, data: seq<byte>)
    ensures var r := OnBinary(GET_RECEIVING, sd, gd, data);
      var sz := ChunkLength(data);
      && (|data| == 2 + sz && sz > 0 ==>
            r == Reaction(GET_RECEIVING, gd + data[2..], [CONTINUE], []) && |r.getFileData| == |gd| + sz)
      && (|data| == 2 && sz == 0 ==> r == Reaction(GET_AWAIT_FINAL, gd, [], []))
      && (|data| != 2 + sz ==> r == Reaction(IDLE, gd, [], []))
  {
  }

  /**
   * States 12, 23 and 31 return to 0 on any binary frame; only state 23 with
   * status 0 emits something, the decoded download.
   */
  lemma {:induction false} TerminalStates(st: int, sd: seq<byte>, gd: seq<byte>, data: seq<byte>)
    requires st == PUT_AWAIT_FINAL || st == GET_AWAIT_FINAL || st == GET_VERSION
    ensures var r := OnBinary(st, sd, gd, data);
      && r.state == IDLE && r.getFileData == gd && r.sends == []
      && r.events == if st == GET_AWAIT_FINAL && DecodeResp(data) == 0
                     then [Output(Text(Utf8.Decode(gd)))] else []
  {
  }

  /** Outside a transfer a binary frame changes nothing and sends nothing. */
  lemma {:induction false} IdleIgnoresFrames(st: int, sd: seq<byte>, gd: seq<byte>, frames: seq<seq<byte>>)
    requires !KnownState(st) || st == IDLE
    ensures Feed(st, sd, gd, frames) == Reaction(st, gd, [], [])
    decreases |frames|
  {
    if frames != [] {
      IdleIgnoresFrames(st, sd, gd, frames[1..]);
    }
  }

  function Repeat<T>(x: T, n: nat): (s: seq<T>)
    ensures |s| == n && forall i :: 0 <= i < n ==> s[i] == x
  {
    seq(n, _ => x)
  }

  /** The frames a device sends for a file cut into `parts`, then the empty end chunk. */
  function ChunkFrames(parts: seq<seq<byte>>): seq<seq<byte>>
    requires forall i :: 0 <= i < |parts| ==> |parts[i]| < 0x1_0000
  {
    seq(|parts|, i requires 0 <= i < |parts| => ChunkFrame(parts[i]))
  }

  /**
   * In state 22, non-empty chunks followed by the empty chunk move the state
   * to 23 with the chunk payloads appended in arrival order and one `0x00`
   * sent per chunk; whatever frames follow are handled from there.
   */
  lemma {:induction false} DownloadAccumulates(sd: seq<byte>, gd: seq<byte>, parts: seq<seq<byte>>, tail: seq<seq<byte>>)
    requires forall i :: 0 <= i < |parts| ==> 0 < |parts[i]| < 0x1_0000
    ensures var rt := Feed(GET_AWAIT_FINAL, sd, gd + Flatten(parts), tail);
      Feed(GET_RECEIVING, sd, gd, ChunkFrames(parts) + [ChunkFrame([])] + tail)
      == Reaction(rt.state, rt.getFileData, Repeat(CONTINUE, |parts|) + rt.sends, rt.events)
    decreases |parts|
  {
    var frames := ChunkFrames(parts) + [ChunkFrame([])] + tail;
    if parts == [] {
      assert ChunkFrames(parts) == [];
      assert frames == [ChunkFrame([])] + tail;
      DownloadEnds(sd, gd, tail);
      assert gd + Flatten(parts) == gd;
    } else {
      var p := parts[0];
      var later := ChunkFrames(parts[1..]) + [ChunkFrame([])] + tail;
      ChunkFramesCons(parts);
      assert frames == [ChunkFrame(p)] + later;
      DownloadStep(sd, gd, p, later);
      DownloadAccumulates(sd, gd + p, parts[1..], tail);
      assert gd + p + Flatten(parts[1..]) == gd + Flatten(parts);
      ContinueChain(Feed(GET_RECEIVING, sd, gd, frames), Feed(GET_RECEIVING, sd, gd + p, later),
                    Feed(GET_AWAIT_FINAL, sd, gd + Flatten(parts), tail), |parts| - 1);
    }
  }

  /** Chaining two reactions that each start with `0x00` replies. */
  lemma {:induction false} ContinueChain(x: Reaction, rest: Reaction, rt: Reaction, n: nat)
    requires x == Reaction(rest.state, rest.getFileData, [CONTINUE] + rest.sends, rest.events)
    requires rest == Reaction(rt.state, rt.getFileData, Repeat(CONTINUE, n) + rt.sends, rt.events)
    ensures x == Reaction(rt.state, rt.getFileData, Repeat(CONTINUE, n + 1) + rt.sends, rt.events)
  {
    assert [CONTINUE] + (Repeat(CONTINUE, n) + rt.sends) == Repeat(CONTINUE, n + 1) + rt.sends;
  }

  lemma {:induction false} ChunkFramesCons(parts: seq<seq<byte>>)
    requires parts != []
    requires forall i :: 0 <= i < |parts| ==> |parts[i]| < 0x1_0000
    ensures ChunkFrames(parts) == [ChunkFrame(parts[0])] + ChunkFrames(parts[1..])
  {
  }

  /** The empty chunk ends the file: what follows is handled in state 23. */
  lemma {:induction false} DownloadEnds(sd: seq<byte>, gd: seq<byte>, tail: seq<seq<byte>>)
    ensures Feed(GET_RECEIVING, sd, gd, [ChunkFrame([])] + tail) == Feed(GET_AWAIT_FINAL, sd, gd, tail)
  {
    var frames := [ChunkFrame([])] + tail;
    assert ChunkFrame([]) == [0, 0];
    assert frames[1..] == tail;
  }

  /** A non-empty chunk is appended and answered with `0x00`; what follows is handled in state 22. */
  lemma {:induction false} DownloadStep(sd: seq<byte>, gd: seq<byte>, p: seq<byte>, later: seq<seq<byte>>)
    requires 0 < |p| < 0x1_0000
    ensures var rest := Feed(GET_RECEIVING, sd, gd + p, later);
      Feed(GET_RECEIVING, sd, gd, [ChunkFrame(p)] + later)
      == Reaction(rest.state, rest.getFileData, [CONTINUE] + rest.sends, rest.events)
  {
    var frames := [ChunkFrame(p)] + later;
    ChunkFrameRoundTrip(p);
    assert OnBinary(GET_RECEIVING, sd, gd, ChunkFrame(p)) == Reaction(GET_RECEIVING, gd + p, [CONTINUE], []);
    assert frames[1..] == later;
  }

  /**
   * A whole download: accept, the chunks, the empty chunk and a final
   * status 0. The transfer ends idle, the buffer holds exactly the chunks
   * in arrival order, one `0x00` went out per chunk plus the first, and the
   * one event is the decoded file.
   */
  lemma {:induction false} DownloadDelivers(sd: seq<byte>, parts: seq<seq<byte>>)
    requires forall i :: 0 <= i < |parts| ==> 0 < |parts[i]| < 0x1_0000
    ensures Feed(GET_AWAIT_ACK, sd, [], [StatusReply(0)] + ChunkFrames(parts) + [ChunkFrame([]), StatusReply(0)])
         == Reaction(IDLE, Flatten(parts), Repeat(CONTINUE, |parts| + 1), [Output(Text(Utf8.Decode(Flatten(parts))))])
  {
    var tail: seq<seq<byte>> := [StatusReply(0)];
    var later := ChunkFrames(parts) + [ChunkFrame([])] + tail;
    assert [StatusReply(0)] + ChunkFrames(parts) + [ChunkFrame([]), StatusReply(0)] == [StatusReply(0)] + later;
    GetAccepted(sd, later);
    DownloadAccumulates(sd, [], parts, tail);
    assert [] + Flatten(parts) == Flatten(parts);
    GetFinalStatus(sd, Flatten(parts));
    var rt := Feed(GET_AWAIT_FINAL, sd, Flatten(parts), tail);
    assert Repeat(CONTINUE, |parts|) + rt.sends == Repeat(CONTINUE, |parts|);
    ContinueChain(Feed(GET_AWAIT_ACK, sd, [], [StatusReply(0)] + later), Feed(GET_RECEIVING, sd, [], later),
                  Reaction(IDLE, Flatten(parts), [], [Output(Text(Utf8.Decode(Flatten(parts))))]), |parts|);
  }

  /** Status 0 in state 21: one `0x00`, and the rest is handled in state 22. */
  lemma {:induction false} GetAccepted(sd: seq<byte>, later: seq<seq<byte>>)
    ensures var rest := Feed(GET_RECEIVING, sd, [], later);
      Feed(GET_AWAIT_ACK, sd, [], [StatusReply(0)] + later)
      == Reaction(rest.state, rest.getFileData, [CONTINUE] + rest.sends, rest.events)
  {
    StatusRoundTrip(0, []);
    assert StatusReply(0) + [] == StatusReply(0);
    assert ([StatusReply(0)] + later)[1..] == later;
  }

  /** Status 0 in state 23 emits the decoded buffer and ends idle. */
  lemma {:induction false} GetFinalStatus(sd: seq<byte>, gd: seq<byte>)
    ensures Feed(GET_AWAIT_FINAL, sd, gd, [StatusReply(0)])
         == Reaction(IDLE, gd, [], [Output(Text(Utf8.Decode(gd)))])
  {
    StatusRoundTrip(0, []);
    assert StatusReply(0) + [] == StatusReply(0);
    var frames: seq<seq<byte>> := [StatusReply(0)];
    assert frames[1..] == [];
  }

  /**
   * A put against a device that accepts it: the slices sent are exactly the
   * low bytes of the content, and the transfer ends idle.
   */
  lemma {:induction false} PutSendsContent(content: JsString, gd: seq<byte>)
    ensures var put := Feed(PUT_AWAIT_ACK, LowBytes(content), gd, [StatusReply(0), StatusReply(0)]);
      && put == Reaction(IDLE, gd, Binaries(Chunks(LowBytes(content))), [])
      && Flatten(Chunks(LowBytes(content))) == LowBytes(content)
  {
    StatusRoundTrip(0, []);
    ChunksSpec(LowBytes(content));
    assert StatusReply(0) + [] == StatusReply(0);
    var frames: seq<seq<byte>> := [StatusReply(0), StatusReply(0)];
    assert frames[1..] == [StatusReply(0)];
    assert frames[1..][1..] == [];
  }

  /**
   * A get against a device that serves back the bytes a put stored, in
   * slices of 1024: the buffer ends up holding those bytes, and the emitted
   * text is their decoding, which is the content itself exactly when the
   * content is ASCII.
   */
  lemma {:induction false} GetReturnsStored(content: JsString)
    ensures var stored := LowBytes(content);
      var get := Feed(GET_AWAIT_ACK, [], [],
                      [StatusReply(0)] + ChunkFrames(Chunks(stored)) + [ChunkFrame([]), StatusReply(0)]);
      && get.state == IDLE && get.getFileData == stored
      && get.events == [Output(Text(Utf8.Decode(stored)))]
      && (get.events == [Output(Text(content))] <==> forall i :: 0 <= i < |content| ==> content[i] < 0x80)
  {
    var stored := LowBytes(content);
    var parts := Chunks(stored);
    ChunksSpec(stored);
    DownloadDelivers([], parts);
    if forall i :: 0 <= i < |content| ==> content[i] < 0x80 {
      AsciiSurvivesDownload(content);
    } else {
      NonAsciiDoesNotSurvive(content);
    }
  }

  /** ASCII content stored as low bytes decodes back to itself. */
  lemma {:induction false} AsciiSurvivesDownload(content: JsString)
    requires forall i :: 0 <= i < |content| ==> content[i] < 0x80
    ensures Utf8.Decode(LowBytes(content)) == content
  {
    var stored := LowBytes(content);
    Utf8.DecodeAscii(stored);
    assert Widen(stored) == content;
  }

  /**
   * Content with a unit of 0x80 or more does not come back. The put keeps one
   * byte per unit and the get decodes those bytes as UTF-8: a unit at 0x100 or
   * above loses its high byte, a continuation byte vanishes, and a lead byte
   * takes the following units with it.
   */
  lemma {:induction false} NonAsciiDoesNotSurvive(content: JsString)
    requires exists i :: 0 <= i < |content| && content[i] >= 0x80
    ensures Utf8.Decode(LowBytes(content)) != content
    decreases |content|
  {
    var u := content[0];
    if u < 0x80 {
      var tail := content[1..];
      assert exists i :: 0 <= i < |tail| && tail[i] >= 0x80 by {
        var i :| 0 <= i < |content| && content[i] >= 0x80;
        assert tail[i - 1] >= 0x80;
      }
      NonAsciiDoesNotSurvive(tail);
      assert Utf8.Decode(LowBytes(content)) == [u] + Utf8.Decode(LowBytes(tail)) by {
        assert LowBytes(content) == [u] + LowBytes(tail);
        Utf8.DecodeConsumes(u, LowBytes(tail));
      }
      assert content == [u] + tail;
    } else if |content| == 1 {
      LoneUnitDoesNotSurvive(u);
      assert content == [u];
    } else {
      NonAsciiHeadDoesNotSurvive(content);
    }
  }

  /** A single unit of 0x80 or more comes back as something else, or not at all. */
  lemma {:induction false} LoneUnitDoesNotSurvive(u: CodeUnit)
    requires u >= 0x80
    ensures Utf8.Decode(LowBytes([u])) != [u]
  {
    var b := LowByte(u);
    assert LowBytes([u]) == [b];
    if 0xC0 <= b < 0xE0 {
      assert Utf8.Decode([b]) == [Utf8.TwoByteUnit(b, 0)] by {
        assert Drop([b], 2) == [];
      }
      LeadUnitsDiffer(u);
    } else if 0xE0 <= b < 0xF0 {
      Utf8.TruncatedLeadReadsZeros(b);
      LeadUnitsDiffer(u);
    } else {
      Utf8.DecodeConsumes(b, []);
    }
  }

  /**
   * A lead byte decoded with its continuation bytes missing gives a unit with
   * zero low bits, which is never the unit the byte was the low byte of.
   */
  lemma {:induction false} LeadUnitsDiffer(u: CodeUnit)
    requires u >= 0x80
    ensures 0xC0 <= u % 0x100 < 0xE0 ==> u != Utf8.TwoByteUnit(u % 0x100, 0)
    ensures 0xE0 <= u % 0x100 < 0xF0 ==> u != (u % 0x100 % 0x10) * 0x1000
  {
    var b := u % 0x100;
    assert u == (u / 0x100) * 0x100 + b;
  }

  /**
   * A first unit of 0x80 or more followed by more units: either it comes back
   * as its low byte, or its byte is skipped or takes a following byte with it,
   * so that the decoding is shorter than the content.
   */
  lemma {:induction false} NonAsciiHeadDoesNotSurvive(content: JsString)
    requires |content| >= 2 && content[0] >= 0x80
    ensures Utf8.Decode(LowBytes(content)) != content
  {
    var stored := LowBytes(content);
    var b := stored[0];
    var rest := LowBytes(content[1..]);
    assert stored == [b] + rest;
    Utf8.DecodeConsumes(b, rest);
    if 0xE0 <= b < 0xF0 && |content| == 2 {
      assert Drop(stored, 3) == [];
    }
  }

  /**
   * Two Latin texts that do not survive: "é!" is stored as 0xE9 0x21, and
   * 0xE9 reads as a 3-byte lead that takes the "!" with it; "€" (U+20AC) is
   * stored as 0xAC, a continuation byte, and vanishes.
   */
  lemma {:induction false} LatinOneRoundTripBreaks()
    ensures Utf8.Decode(LowBytes([0xE9, 0x21])) == [0x9840]
    ensures Utf8.Decode(LowBytes([0x20AC])) == []
  {
    assert LowBytes([0xE9, 0x21]) == [0xE9, 0x21];
    assert LowBytes([0x20AC]) == [0xAC];
    Utf8.DecodeConsumes(0xAC, []);
    assert Drop([0xE9, 0x21], 3) == [];
  }
}
