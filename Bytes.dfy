/**
 * Value types shared by the whole model: bytes of a `Uint8Array`, UTF-16
 * code units of a JavaScript string, and the messages that travel over the
 * WebREPL socket.
 */
module Bytes {

  /** One element of a `Uint8Array`. */
  type byte = x: int | 0 <= x < 0x100

  /** One UTF-16 code unit, the value `charCodeAt` returns. */
  type CodeUnit = x: int | 0 <= x < 0x1_0000

  /** A JavaScript string is a sequence of code units (lone surrogates allowed). */
  type JsString = seq<CodeUnit>

  const LF: CodeUnit := 0x0A
  const CR: CodeUnit := 0x0D

  /** A message handed to, or received from, the socket: text or binary. */
  datatype Message = Text(text: JsString) | Binary(bytes: seq<byte>)

  /**
   * The code units of an ASCII literal written in Dafny; used only for the
   * fixed control sequences and code snippets of the client.
   */
  function Units(s: string): (r: JsString)
    ensures |r| == |s|
  {
    seq(|s|, i requires 0 <= i < |s| => s[i] as int % 0x1_0000)
  }

  /**
   * `data[i]` of a `Uint8Array` as the bit operators see it: an index past
   * the end yields `undefined`, which `|`, `&` and `<<` turn into 0.
   */
  function ByteAt(data: seq<byte>, i: nat): byte
  {
    if i < |data| then data[i] else 0
  }

  /** Storing a code unit into a `Uint8Array` keeps its low byte only. */
  function LowByte(u: CodeUnit): byte
  {
    u % 0x100
  }

  /** The low bytes of a string's code units, one per unit. */
  function LowBytes(s: JsString): seq<byte>
  {
    seq(|s|, i requires 0 <= i < |s| => LowByte(s[i]))
  }

  /** Each byte as a code unit of the same value (`String.fromCharCode(b)`). */
  function Widen(b: seq<byte>): JsString
  {
    seq(|b|, i requires 0 <= i < |b| => b[i] as CodeUnit)
  }

  /** `s[k..]` when `k` is in range, empty when the index ran past the end. */
  function Drop<T>(s: seq<T>, k: nat): (r: seq<T>)
    ensures |r| == if k <= |s| then |s| - k else 0
  {
    if k <= |s| then s[k..] else []
  }

  /** Concatenation of a sequence of sequences, in order. */
  function Flatten<T>(parts: seq<seq<T>>): seq<T>
  {
    if parts == [] then [] else parts[0] + Flatten(parts[1..])
  }

  lemma {:induction false} FlattenAppend<T>(a: seq<seq<T>>, b: seq<seq<T>>)
    ensures Flatten(a + b) == Flatten(a) + Flatten(b)
  {
    if a == [] {
      assert a + b == b;
    } else {
      assert (a + b)[1..] == a[1..] + b;
      FlattenAppend(a[1..], b);
    }
  }
}
