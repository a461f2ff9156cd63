/**
 * `WebsocketConnection`: the object the client's users hold. Its fields are
 * the transfer state of `_handleMessage`, the two transfer buffers and the
 * password; the socket is replaced by `sent`, the trace of every message
 * handed to `ws.send`, and the event emitter by `emitted`, the trace of every
 * `emit`.
 */
module Client {
  import opened Bytes
  import opened Frame
  import opened Transfer
  import Utf8
  import Schedule

  /** CTRL-C. */
  const STOP: JsString := [CR, 0x03]
  /** CTRL-D. */
  const RESET: JsString := [CR, 0x04]
  /** CTRL-A. */
  const ENTER_RAW_REPL: JsString := [CR, 0x01]
  /** CTRL-D, then CTRL-B. */
  const EXIT_RAW_REPL: JsString := [CR, 0x04, CR, 0x02]

  /** The device's login prompt, matched as a whole text message. */
  const PASSWORD_PROMPT: JsString := Units("Password: ")
  /** Emitted before the paced lines, and once per paced send. */
  const NEW_LINE: JsString := [CR, LF]
  const DOT: JsString := [0x2E]

  /** The snippets that `listFiles` and `removeFile` run through `execute`. */
  const LIST_FILES_CODE: JsString := Units("print(' ')\nfrom os import listdir\nprint(listdir())\n")
  const REMOVE_FILE_HEAD: JsString := Units("from os import remove\nremove('")
  const REMOVE_FILE_TAIL: JsString := Units("')")

  function Texts(ps: seq<JsString>): (ms: seq<Message>)
    ensures |ms| == |ps|
  {
    seq(|ps|, i requires 0 <= i < |ps| => Text(ps[i]))
  }

  /** The binary branch for binary frames; text leaves the transfer alone. */
  function OnMessage(st: int, sendFileData: seq<byte>, getFileData: seq<byte>, m: Message): Reaction
  {
    if m.Binary? then OnBinary(st, sendFileData, getFileData, m.bytes) else Reaction(st, getFileData, [], [])
  }

  /** What `_handleMessage` sends for a login prompt: the password and `\r`. */
  function LoginReply(password: JsString, m: Message): seq<Message>
  {
    if m == Text(PASSWORD_PROMPT) then [Text(password + [CR])] else []
  }

  /** Text leaves the transfer alone, and a binary frame is never taken for the login prompt. */
  lemma {:induction false} OnMessageText(st: int, sd: seq<byte>, gd: seq<byte>, t: JsString, b: seq<byte>, password: JsString)
    ensures OnMessage(st, sd, gd, Text(t)) == Reaction(st, gd, [], [])
    ensures LoginReply(password, Binary(b)) == []
  {
  }

  class WebsocketConnection {
    var ip: JsString
    var password: JsString
    var binaryState: int
    var sendFileName: JsString
    var sendFileData: seq<byte>
    var getFileName: JsString
    var getFileData: seq<byte>
    /** Every message handed to the socket, in order. */
    var sent: seq<Message>
    /** Every event emitted, in order. */
    var emitted: seq<Event>

    ghost predicate Valid()
      reads this
    {
      KnownState(binaryState)
    }

    constructor ()
      ensures Valid() && binaryState == IDLE
      ensures sendFileName == [] && sendFileData == [] && getFileName == [] && getFileData == []
      ensures sent == [] && emitted == []
    {
      ip, password := [], [];
      binaryState := IDLE;
      sendFileName, sendFileData := [], [];
      getFileName, getFileData := [], [];
      sent, emitted := [], [];
    }

    /** `open`: keeps the address and the password; the socket itself is not modelled. */
    method Open(ip: JsString, password: JsString)
      modifies this`ip, this`password
      ensures this.ip == ip && this.password == password
    {
      this.ip := ip;
      this.password := password;
    }

    /** `evaluate`: hands the command to the socket. */
    method Evaluate(command: Message)
      modifies this`sent
      ensures sent == old(sent) + [command]
    {
      sent := sent + [command];
    }

    method Stop()
      modifies this`sent
      ensures sent == old(sent) + [Text(STOP)]
    {
      Evaluate(Text(STOP));
    }

    method SoftReset()
      modifies this`sent
      ensures sent == old(sent) + [Text(STOP), Text(RESET)]
    {
      Stop();
      Evaluate(Text(RESET));
    }

    method EnterRawRepl()
      modifies this`sent
      ensures sent == old(sent) + [Text(ENTER_RAW_REPL)]
    {
      Evaluate(Text(ENTER_RAW_REPL));
    }

    method ExitRawRepl()
      modifies this`sent
      ensures sent == old(sent) + [Text(EXIT_RAW_REPL)]
    {
      Evaluate(Text(EXIT_RAW_REPL));
    }

    /** `_executeRaw`: the text, then `\r` when the text holds no `\n`. */
    method ExecuteRaw(raw: JsString)
      modifies this`sent
      ensures sent == old(sent) + [Text(raw)] + (if LF in raw then [] else [Text([CR])])
    {
      Evaluate(Text(raw));
      if LF !in raw {
        Evaluate(Text([CR]));
      }
    }

    /** `loadFile`: sends the get record and waits for the first reply in state 21. */
    method LoadFile(path: JsString)
      modifies this`binaryState, this`getFileName, this`getFileData, this`sent
      ensures Valid() && binaryState == GET_AWAIT_ACK
      ensures getFileName == path && getFileData == []
      ensures sent == old(sent) + [Binary(Record(GET_FILE, 0, path))]
    {
      var rec := BuildRecord(GET_FILE, 0, path);
      binaryState := GET_AWAIT_ACK;
      getFileName := path;
      getFileData := [];
      Evaluate(Binary(rec));
    }

    /**
     * `writeFile`: keeps the low bytes of the content for the put, sends the
     * put record declaring their number and waits in state 11.
     */
    method WriteFile(path: JsString, content: JsString)
      modifies this`sendFileName, this`sendFileData, this`binaryState, this`sent
      ensures Valid() && binaryState == PUT_AWAIT_ACK
      ensures sendFileName == path && sendFileData == LowBytes(content)
      ensures sent == old(sent) + [Binary(Record(PUT_FILE, |content|, path))]
    {
      sendFileName := path;
      var buff := ContentBytes(content);
      sendFileData := buff;
      var rec := BuildRecord(PUT_FILE, |sendFileData|, sendFileName);
      binaryState := PUT_AWAIT_ACK;
      Evaluate(Binary(rec));
    }

    /**
     * `_handleMessage`: a binary frame goes through the transfer state
     * machine; a text message equal to the login prompt is answered with the
     * password and `connected`; every message is then emitted as output.
     */
    method HandleMessage(m: Message)
      requires Valid()
      modifies this`binaryState, this`getFileData, this`sent, this`emitted
      ensures Valid()
      ensures var r := OnMessage(old(binaryState), sendFileData, old(getFileData), m);
        && binaryState == r.state && getFileData == r.getFileData
        && sent == old(sent) + r.sends + LoginReply(password, m)
        && emitted == old(emitted) + r.events
                      + (if m == Text(PASSWORD_PROMPT) then [Connected] else []) + [Output(m)]
    {
      if m.Binary? {
        var data := m.bytes;
        KnownStatePreserved(binaryState, sendFileData, getFileData, data);
        if binaryState == PUT_AWAIT_ACK {
          if DecodeResp(data) == 0 {
            SendFileChunks();
            binaryState := PUT_AWAIT_FINAL;
          }
        } else if binaryState == PUT_AWAIT_FINAL {
          binaryState := IDLE;
        } else if binaryState == GET_AWAIT_ACK {
          if DecodeResp(data) == 0 {
            binaryState := GET_RECEIVING;
            sent := sent + [CONTINUE];
          }
        } else if binaryState == GET_RECEIVING {
          var sz := ChunkLength(data);
          if |data| == 2 + sz {
            if sz == 0 {
              binaryState := GET_AWAIT_FINAL;
            } else {
              getFileData := getFileData + data[2..];
              sent := sent + [CONTINUE];
            }
          } else {
            binaryState := IDLE;
          }
        } else if binaryState == GET_AWAIT_FINAL {
          if DecodeResp(data) == 0 {
            var text := Utf8.Utf8ArrayToStr(getFileData);
            emitted := emitted + [Output(Text(text))];
          }
          binaryState := IDLE;
        } else if binaryState == GET_VERSION {
          binaryState := IDLE;
        }
      }
      if m == Text(PASSWORD_PROMPT) {
        sent := sent + [Text(password + [CR])];
        emitted := emitted + [Connected];
      }
      emitted := emitted + [Output(m)];
    }

    /** The `for (offset ...)` loop of state 11: each slice of at most 1024 bytes, in order. */
    method SendFileChunks()
      modifies this`sent
      ensures sent == old(sent) + Binaries(Chunks(sendFileData))
    {
      var offset := 0;
      ghost var done: seq<seq<byte>> := [];
      while offset < |sendFileData|
        invariant done + Chunks(Drop(sendFileData, offset)) == Chunks(sendFileData)
        invariant sent == old(sent) + Binaries(done)
        decreases |sendFileData| - offset
      {
        var end := if offset + CHUNK_SIZE <= |sendFileData| then offset + CHUNK_SIZE else |sendFileData|;
        ghost var slice := sendFileData[offset..end];
        ghost var later := Chunks(Drop(sendFileData, offset + CHUNK_SIZE));
        ChunksFrom(sendFileData, offset, end);
        assert Chunks(Drop(sendFileData, offset)) == [slice] + later;
        SlicesSnoc(done, slice, later);
        sent := sent + [Binary(sendFileData[offset..end])];
        done := done + [slice];
        offset := offset + CHUNK_SIZE;
      }
      assert Drop(sendFileData, offset) == [];
      assert done == Chunks(sendFileData);
    }

    /**
     * `execute`: enter raw mode, after the settle send each paced line (with
     * a `.` of output each) in the order of their timers, then exit raw mode
     * when the completion timer fires. The result is the time of that exit,
     * counted from entering raw mode.
     */
    method Execute(code: JsString) returns (exitAt: nat)
      modifies this`sent, this`emitted
      ensures var sends := Schedule.SendsOf(Schedule.Split(code));
        && sent == old(sent) + [Text(ENTER_RAW_REPL)] + Texts(Schedule.Payloads(sends)) + [Text(EXIT_RAW_REPL)]
        && emitted == old(emitted) + [Output(Text(NEW_LINE))] + Repeat(Output(Text(DOT)), |sends|)
        && exitAt == Schedule.SETTLE + Schedule.EndOf(Schedule.Split(code)) + Schedule.COMPLETION_DELAY
    {
      EnterRawRepl();
      var sends, completion := Schedule.Pace(code);
      emitted := emitted + [Output(Text(NEW_LINE))];
      SendPaced(sends);
      ExitRawRepl();
      exitAt := Schedule.SETTLE + completion;
    }

    /** The timers of `executeRaw` firing in order: each sends its payload and emits a `.`. */
    method SendPaced(sends: seq<Schedule.Send>)
      modifies this`sent, this`emitted
      ensures sent == old(sent) + Texts(Schedule.Payloads(sends))
      ensures emitted == old(emitted) + Repeat(Output(Text(DOT)), |sends|)
    {
      for k := 0 to |sends|
        invariant sent == old(sent) + Texts(Schedule.Payloads(sends[..k]))
        invariant emitted == old(emitted) + Repeat(Output(Text(DOT)), k)
      {
        PacedSnoc(sends, k);
        Evaluate(Text(sends[k].payload));
        emitted := emitted + [Output(Text(DOT))];
      }
      assert sends[..|sends|] == sends;
    }

    /** `listFiles`: runs a fixed snippet through `execute`. */
    method ListFiles()
      modifies this`sent, this`emitted
      ensures var sends := Schedule.SendsOf(Schedule.Split(LIST_FILES_CODE));
        && sent == old(sent) + [Text(ENTER_RAW_REPL)] + Texts(Schedule.Payloads(sends)) + [Text(EXIT_RAW_REPL)]
        && emitted == old(emitted) + [Output(Text(NEW_LINE))] + Repeat(Output(Text(DOT)), |sends|)
    {
      var _ := Execute(LIST_FILES_CODE);
    }

    /** `removeFile`: runs `remove('<path>')` through `execute`, the path pasted in unescaped. */
    method RemoveFile(path: JsString)
      modifies this`sent, this`emitted
      ensures var sends := Schedule.SendsOf(Schedule.Split(REMOVE_FILE_HEAD + path + REMOVE_FILE_TAIL));
        && sent == old(sent) + [Text(ENTER_RAW_REPL)] + Texts(Schedule.Payloads(sends)) + [Text(EXIT_RAW_REPL)]
        && emitted == old(emitted) + [Output(Text(NEW_LINE))] + Repeat(Output(Text(DOT)), |sends|)
    {
      var _ := Execute(REMOVE_FILE_HEAD + path + REMOVE_FILE_TAIL);
    }
  }

  /** One more slice sent: the done slices grow by it, and so do the messages. */
  lemma {:induction false} SlicesSnoc(done: seq<seq<byte>>, slice: seq<byte>, later: seq<seq<byte>>)
    ensures (done + [slice]) + later == done + ([slice] + later)
    ensures Binaries(done + [slice]) == Binaries(done) + [Binary(slice)]
  {
  }

  /** One more fired timer adds its payload and one more `.`. */
  lemma {:induction false} PacedSnoc(sends: seq<Schedule.Send>, k: nat)
    requires k < |sends|
    ensures Texts(Schedule.Payloads(sends[..k + 1])) == Texts(Schedule.Payloads(sends[..k])) + [Text(sends[k].payload)]
    ensures Repeat(Output(Text(DOT)), k + 1) == Repeat(Output(Text(DOT)), k) + [Output(Text(DOT))]
  {
  }

  /** One turn of the slicing loop at `offset`: the next slice, then the rest from `offset + 1024`. */
  lemma {:induction false} ChunksFrom(d: seq<byte>, offset: nat, end: nat)
    requires offset < |d|
    requires end == if offset + CHUNK_SIZE <= |d| then offset + CHUNK_SIZE else |d|
    ensures Chunks(Drop(d, offset)) == [d[offset..end]] + Chunks(Drop(d, offset + CHUNK_SIZE))
  {
    var rest := Drop(d, offset);
    var k := if |rest| <= CHUNK_SIZE then |rest| else CHUNK_SIZE;
    assert rest[..k] == d[offset..offset + k];
    assert rest[k..] == Drop(d, offset + CHUNK_SIZE);
  }
}
