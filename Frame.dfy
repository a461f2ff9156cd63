/**
 * The WebREPL frame codec: the 82-byte file-transfer record that `loadFile`
 * and `writeFile` send (Python struct layout "<2sBBQLH64s"), the `WB` status
 * reply and the length-prefixed download chunk.
 */
module Frame {
  import opened Bytes

  const RECORD_SIZE: nat := 2 + 1 + 1 + 8 + 4 + 2 + 64
  const NAME_FIELD_SIZE: nat := 64

  const ASCII_W: byte := 0x57
  const ASCII_A: byte := 0x41
  const ASCII_B: byte := 0x42

  /** Opcodes of the record. */
  const PUT_FILE: byte := 1
  const GET_FILE: byte := 2

  const TWO_POW_32: nat := 0x1_0000_0000

  /** Bytes 12-15: `n & 0xff`, `(n >> 8) & 0xff`, `(n >> 16) & 0xff`, `(n >> 24) & 0xff`. */
  function SizeField(n: nat): seq<byte>
  {
    [n % 0x100, (n / 0x100) % 0x100, (n / 0x1_0000) % 0x100, (n / 0x100_0000) % 0x100]
  }

  /** Bytes 16-17: `n & 0xff`, `(n >> 8) & 0xff`. */
  function NameLengthField(n: nat): seq<byte>
  {
    [n % 0x100, (n / 0x100) % 0x100]
  }

  /** Bytes 18-81: the low byte of each of the first 64 units, then zeros. */
  function NameField(path: JsString): seq<byte>
  {
    seq(NAME_FIELD_SIZE, i requires 0 <= i < NAME_FIELD_SIZE => if i < |path| then LowByte(path[i]) else 0)
  }

  /** Bytes 0-17: magic, opcode, the nine reserved bytes, size and name length. */
  function Header(op: byte, size: nat, nameLength: nat): (h: seq<byte>)
    ensures |h| == 18
  {
    [ASCII_W, ASCII_A, op, 0, 0, 0, 0, 0, 0, 0, 0, 0] + SizeField(size) + NameLengthField(nameLength)
  }

  /** The whole record: the 18-byte header and the 64-byte name field. */
  function Record(op: byte, size: nat, path: JsString): seq<byte>
  {
    Header(op, size, |path|) + NameField(path)
  }

  /** An unsigned little-endian number. */
  function LittleEndian(b: seq<byte>): nat
  {
    if b == [] then 0 else b[0] + 0x100 * LittleEndian(b[1..])
  }

  /** The fields of a record as the device reads them. */
  datatype FileHeader = FileHeader(op: byte, size: nat, nameLength: nat, name: seq<byte>)

  datatype Option<T> = None | Some(value: T)

  /** Reads a record back: magic `WA`, then the fields at their offsets. */
  function ParseRecord(rec: seq<byte>): (h: Option<FileHeader>)
    ensures h.Some? <==> |rec| == RECORD_SIZE && rec[0] == ASCII_W && rec[1] == ASCII_A
    ensures h.Some? ==> h.value.size < TWO_POW_32 && h.value.nameLength < 0x1_0000
  {
    if |rec| == RECORD_SIZE && rec[0] == ASCII_W && rec[1] == ASCII_A then
      LittleEndianBound(rec[12..16]);
      LittleEndianBound(rec[16..18]);
      Some(FileHeader(rec[2], LittleEndian(rec[12..16]), LittleEndian(rec[16..18]), rec[18..]))
    else
      None
  }

  lemma {:induction false} LittleEndianBound(b: seq<byte>)
    ensures LittleEndian(b) < Pow256(|b|)
  {
    if b != [] {
      LittleEndianBound(b[1..]);
    }
  }

  function Pow256(k: nat): (p: nat)
    ensures p > 0
  {
    if k == 0 then 1 else 0x100 * Pow256(k - 1)
  }

  /**
   * The index-by-index fill of the 82-byte `Uint8Array` in `loadFile` and
   * `writeFile`: the header bytes, then the 64-step loop over the name field.
   */
  method BuildRecord(op: byte, size: nat, path: JsString) returns (rec: seq<byte>)
    ensures rec == Record(op, size, path)
  {
    var a := new byte[RECORD_SIZE];
    FillHeader(a, op, size, |path|);
    FillNameField(a, path);
    rec := a[..];
    assert rec == rec[..18] + rec[18..];
  }

  /** The index-by-index writes of bytes 0-17; the name field is left as it was. */
  method FillHeader(a: array<byte>, op: byte, size: nat, nameLength: nat)
    requires a.Length == RECORD_SIZE
    modifies a
    ensures a[..18] == Header(op, size, nameLength)
    ensures a[18..] == old(a[18..])
  {
    FillMagic(a, op);
    FillSize(a, size);
    FillNameLength(a, nameLength);
    assert a[..18] == a[..12] + a[12..16] + a[16..18];
  }

  /** Bytes 0-11: `W`, `A`, the opcode and nine zeros. */
  method FillMagic(a: array<byte>, op: byte)
    requires a.Length == RECORD_SIZE
    modifies a
    ensures a[..12] == [ASCII_W, ASCII_A, op, 0, 0, 0, 0, 0, 0, 0, 0, 0]
    ensures a[12..] == old(a[12..])
  {
    ghost var rest := a[12..];
    a[0] := ASCII_W;
    a[1] := ASCII_A;
    a[2] := op;
    a[3] := 0;
    a[4] := 0; a[5] := 0; a[6] := 0; a[7] := 0; a[8] := 0; a[9] := 0; a[10] := 0; a[11] := 0;
    assert a[12..] == rest;
  }

  /** Bytes 12-15: the size, masked byte by byte. */
  method FillSize(a: array<byte>, size: nat)
    requires a.Length == RECORD_SIZE
    modifies a
    ensures a[12..16] == SizeField(size)
    ensures a[..12] == old(a[..12]) && a[16..] == old(a[16..])
  {
    ghost var before, after := a[..12], a[16..];
    a[12] := size % 0x100; a[13] := (size / 0x100) % 0x100;
    a[14] := (size / 0x1_0000) % 0x100; a[15] := (size / 0x100_0000) % 0x100;
    assert a[..12] == before && a[16..] == after;
  }

  /** Bytes 16-17: the name length, masked byte by byte. */
  method FillNameLength(a: array<byte>, nameLength: nat)
    requires a.Length == RECORD_SIZE
    modifies a
    ensures a[16..18] == NameLengthField(nameLength)
    ensures a[..16] == old(a[..16]) && a[18..] == old(a[18..])
  {
    ghost var before, after := a[..16], a[18..];
    a[16] := nameLength % 0x100; a[17] := (nameLength / 0x100) % 0x100;
    assert a[..16] == before && a[18..] == after;
  }

  /** The loop of `loadFile` and `writeFile` that writes bytes 18-81. */
  method FillNameField(a: array<byte>, path: JsString)
    requires a.Length == RECORD_SIZE
    modifies a
    ensures a[..18] == old(a[..18])
    ensures a[18..] == NameField(path)
  {
    ghost var header := a[..18];
    for i := 0 to NAME_FIELD_SIZE
      invariant forall k :: 0 <= k < 18 ==> a[k] == header[k]
      invariant forall k :: 0 <= k < i ==> a[18 + k] == NameField(path)[k]
    {
      if i < |path| {
        a[18 + i] := LowByte(path[i]);
      } else {
        a[18 + i] := 0;
      }
    }
    assert a[..18] == header;
    forall k | 0 <= k < NAME_FIELD_SIZE
      ensures a[18..][k] == NameField(path)[k]
    {
      assert a[18..][k] == a[18 + k];
    }
  }

  /** The content-to-bytes loop of `writeFile`: each unit's low byte. */
  method ContentBytes(content: JsString) returns (buff: seq<byte>)
    ensures buff == LowBytes(content)
  {
    var a := new byte[|content|];
    for i := 0 to |content|
      invariant forall k :: 0 <= k < i ==> a[k] == LowByte(content[k])
    {
      a[i] := LowByte(content[i]);
    }
    buff := a[..];
  }

  /** Every field of the record sits at its offset. */
  lemma {:induction false} RecordLayout(op: byte, size: nat, path: JsString)
    ensures var r := Record(op, size, path);
      && |r| == RECORD_SIZE
      && r[0] == ASCII_W && r[1] == ASCII_A && r[2] == op
      && (forall k :: 3 <= k < 12 ==> r[k] == 0)
      && r[12..16] == SizeField(size)
      && r[16] == |path| % 0x100 && r[17] == (|path| / 0x100) % 0x100
      && (forall i :: 0 <= i < NAME_FIELD_SIZE ==>
            r[18 + i] == if i < |path| then LowByte(path[i]) else 0)
  {
    var r := Record(op, size, path);
    assert r[18..] == NameField(path);
  }

  /** A get record (size argument 0) carries zeros in bytes 12-15. */
  lemma {:induction false} GetRecordHasNoSize(path: JsString)
    ensures Record(GET_FILE, 0, path)[12..16] == [0, 0, 0, 0]
  {
    assert Record(GET_FILE, 0, path)[12..16] == SizeField(0);
  }

  /**
   * The size field encodes the size modulo 2^32, little-endian: the four
   * shifted-and-masked bytes read back as `n % 2^32`.
   */
  lemma {:induction false} SizeFieldRoundTrip(n: nat)
    ensures LittleEndian(SizeField(n)) == n % TWO_POW_32
  {
    var f := SizeField(n);
    assert LittleEndian(f[3..]) == f[3] by {
      assert f[3..][1..] == [];
    }
    assert LittleEndian(f[2..]) == f[2] as int + 0x100 * (f[3] as int) by {
      assert f[2..][1..] == f[3..];
    }
    assert LittleEndian(f[1..]) == f[1] as int + 0x100 * (f[2] as int) + 0x1_0000 * (f[3] as int) by {
      assert f[1..][1..] == f[2..];
    }
    ShiftsCompose(n);
  }

  /** The name-length field encodes the length modulo 2^16. */
  lemma {:induction false} NameLengthRoundTrip(n: nat)
    ensures LittleEndian(NameLengthField(n)) == n % 0x1_0000
  {
    var f := NameLengthField(n);
    assert LittleEndian(f[1..]) == f[1] by {
      assert f[1..][1..] == [];
    }
    ShiftsCompose(n);
  }

  /** Shifting by 8 bits twice is shifting by 16, and so on. */
  lemma {:induction false} ShiftsCompose(n: nat)
    ensures n / 0x100 / 0x100 == n / 0x1_0000
    ensures n / 0x1_0000 / 0x100 == n / 0x100_0000
    ensures n / 0x100_0000 / 0x100 == n / TWO_POW_32
  {
  }

  /**
   * The whole record parses back: opcode, size modulo 2^32, the untruncated
   * name length modulo 2^16, and the 64-byte name field.
   */
  lemma {:induction false} RecordRoundTrip(op: byte, size: nat, path: JsString)
    ensures ParseRecord(Record(op, size, path))
         == Some(FileHeader(op, size % TWO_POW_32, |path| % 0x1_0000, NameField(path)))
  {
    var r := Record(op, size, path);
    assert r[12..16] == SizeField(size);
    assert r[16..18] == NameLengthField(|path|);
    assert r[18..] == NameField(path);
    SizeFieldRoundTrip(size);
    NameLengthRoundTrip(|path|);
  }

  /**
   * The name field holds the first 64 low bytes of the path and zero padding;
   * a longer path is cut at 64 while the length field keeps the full length.
   */
  lemma {:induction false} NameFieldTruncates(path: JsString)
    ensures |path| <= NAME_FIELD_SIZE ==>
      NameField(path) == LowBytes(path) + seq(NAME_FIELD_SIZE - |path|, _ => 0)
    ensures |path| > NAME_FIELD_SIZE ==> NameField(path) == LowBytes(path[..NAME_FIELD_SIZE])
  {
  }

  /** On code units below 256 (Latin-1 text) the truncation to bytes loses nothing. */
  lemma {:induction false} LowBytesRoundTrip(s: JsString)
    requires forall i :: 0 <= i < |s| ==> s[i] < 0x100
    ensures Widen(LowBytes(s)) == s
  {
    var w := Widen(LowBytes(s));
    assert |w| == |s|;
    forall i | 0 <= i < |s|
      ensures w[i] == s[i]
    {
      assert LowBytes(s)[i] == s[i] % 0x100;
    }
  }

  // ---------------------------------------------------------------- replies

  /**
   * `_decodeResp`: the 16-bit little-endian status after the magic `WB`, or
   * -1 when the magic is absent. Missing bytes read as 0.
   */
  function DecodeResp(data: seq<byte>): (code: int)
    ensures -1 <= code < 0x1_0000
    ensures code == -1 <==> !(ByteAt(data, 0) == ASCII_W && ByteAt(data, 1) == ASCII_B)
  {
    if ByteAt(data, 0) == ASCII_W && ByteAt(data, 1) == ASCII_B then
      ByteAt(data, 2) + 0x100 * ByteAt(data, 3)
    else
      -1
  }

  /** The status reply a device sends: `WB` and the status, little-endian. */
  function StatusReply(status: nat): (r: seq<byte>)
    requires status < 0x1_0000
    ensures |r| == 4
  {
    [ASCII_W, ASCII_B, status % 0x100, status / 0x100]
  }

  /** Decoding a status reply, with anything after it, gives the status back. */
  lemma {:induction false} StatusRoundTrip(status: nat, tail: seq<byte>)
    requires status < 0x1_0000
    ensures DecodeResp(StatusReply(status) + tail) == status
  {
    var r := StatusReply(status) + tail;
    assert ByteAt(r, 2) == status % 0x100 && ByteAt(r, 3) == status / 0x100;
  }

  /** Only the magic and the first four bytes matter; a bare `WB` reads as success. */
  lemma {:induction false} DecodeRespPrefix(data: seq<byte>)
    ensures |data| >= 4 ==> DecodeResp(data) == DecodeResp(data[..4])
    ensures DecodeResp([ASCII_W, ASCII_B]) == 0
  {
  }

  // ---------------------------------------------------------- download chunks

  /** `data[0] | (data[1] << 8)`: the length prefix of a download chunk. */
  function ChunkLength(data: seq<byte>): (sz: nat)
    ensures sz < 0x1_0000
  {
    ByteAt(data, 0) + 0x100 * ByteAt(data, 1)
  }

  /** A download chunk as a device frames it: two length bytes, then the payload. */
  function ChunkFrame(payload: seq<byte>): (f: seq<byte>)
    requires |payload| < 0x1_0000
    ensures |f| == 2 + |payload|
  {
    [|payload| % 0x100, |payload| / 0x100] + payload
  }

  /** The length prefix of a framed chunk reads back as the payload length. */
  lemma {:induction false} ChunkFrameRoundTrip(payload: seq<byte>)
    requires |payload| < 0x1_0000
    ensures ChunkLength(ChunkFrame(payload)) == |payload|
    ensures ChunkFrame(payload)[2..] == payload
  {
  }
}
