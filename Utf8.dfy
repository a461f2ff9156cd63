/**
 * `_Utf8ArrayToStr`: the client's UTF-8 decoder for downloaded files. It
 * knows the 1-, 2- and 3-byte forms of RFC 3629 section 3, checks nothing
 * (continuation bytes are masked, not validated) and drops every byte that
 * is neither ASCII nor a 2- or 3-byte lead.
 */
module Utf8 {
  import opened Bytes

  /** `((c & 0x1F) << 6) | (c2 & 0x3F)`: the bit fields are disjoint, so `|` adds. */
  function TwoByteUnit(c: byte, c2: byte): CodeUnit
  {
    (c % 0x20) * 0x40 + c2 % 0x40
  }

  /** `((c & 0x0F) << 12) | ((c2 & 0x3F) << 6) | (c3 & 0x3F)`. */
  function ThreeByteUnit(c: byte, c2: byte, c3: byte): CodeUnit
  {
    (c % 0x10) * 0x1000 + (c2 % 0x40) * 0x40 + c3 % 0x40
  }

  /**
   * The decoder as a function of the bytes. `c >> 4` in 0..7 is ASCII, 12 and
   * 13 a 2-byte lead, 14 a 3-byte lead; any other byte is skipped. A
   * continuation byte read past the end is `undefined`, which masks to 0.
   */
  function Decode(a: seq<byte>): (s: JsString)
    ensures |s| <= |a|
    decreases |a|
  {
    if a == [] then []
    else
      var c := a[0];
      if c < 0x80 then [c as CodeUnit] + Decode(a[1..])
      else if 0xC0 <= c < 0xE0 then [TwoByteUnit(c, ByteAt(a, 1))] + Decode(Drop(a, 2))
      else if 0xE0 <= c < 0xF0 then [ThreeByteUnit(c, ByteAt(a, 1), ByteAt(a, 2))] + Decode(Drop(a, 3))
      else Decode(a[1..])
  }

  /** The `while (i < len)` loop of `_Utf8ArrayToStr`. */
  method Utf8ArrayToStr(bytes: seq<byte>) returns (out: JsString)
    ensures out == Decode(bytes)
  {
    out := [];
    var len := |bytes|;
    var i := 0;
    while i < len
      invariant 0 <= i <= len + 2
      invariant out + Decode(Drop(bytes, i)) == Decode(bytes)
      decreases len + 2 - i
    {
      ghost var done := out;
      var unit, next := DecodeStep(bytes, i);
      out := out + unit;
      assert out + Decode(Drop(bytes, next)) == done + (unit + Decode(Drop(bytes, next)));
      i := next;
    }
  }

  /**
   * One pass of the loop body: reads the byte at `i`, and for a lead byte
   * the one or two bytes after it, and yields the code unit they form (or
   * nothing), advancing past the bytes read.
   */
  method DecodeStep(bytes: seq<byte>, i: nat) returns (unit: JsString, next: nat)
    requires i < |bytes|
    ensures i < next <= i + 3
    ensures Decode(Drop(bytes, i)) == unit + Decode(Drop(bytes, next))
  {
    DecodeFrom(bytes, i);
    var c := bytes[i];
    next := i + 1;
    if c / 0x10 <= 7 {
      assert c < 0x80;
      unit := [c as CodeUnit];
    } else if c / 0x10 == 12 || c / 0x10 == 13 {
      assert 0xC0 <= c < 0xE0;
      var char2 := ByteAt(bytes, next);
      next := next + 1;
      unit := [TwoByteUnit(c, char2)];
    } else if c / 0x10 == 14 {
      assert 0xE0 <= c < 0xF0;
      var char2 := ByteAt(bytes, next);
      next := next + 1;
      var char3 := ByteAt(bytes, next);
      next := next + 1;
      unit := [ThreeByteUnit(c, char2, char3)];
    } else {
      assert 0x80 <= c < 0xC0 || 0xF0 <= c;
      unit := [];
    }
  }

  /** One step of the decoder, read at position `i` of the whole input. */
  lemma {:induction false} DecodeFrom(a: seq<byte>, i: nat)
    requires i < |a|
    ensures a[i] < 0x80 ==> Decode(Drop(a, i)) == [a[i] as CodeUnit] + Decode(Drop(a, i + 1))
    ensures 0xC0 <= a[i] < 0xE0 ==>
      Decode(Drop(a, i)) == [TwoByteUnit(a[i], ByteAt(a, i + 1))] + Decode(Drop(a, i + 2))
    ensures 0xE0 <= a[i] < 0xF0 ==>
      Decode(Drop(a, i)) == [ThreeByteUnit(a[i], ByteAt(a, i + 1), ByteAt(a, i + 2))] + Decode(Drop(a, i + 3))
    ensures (0x80 <= a[i] < 0xC0 || 0xF0 <= a[i]) ==> Decode(Drop(a, i)) == Decode(Drop(a, i + 1))
  {
    var rest := Drop(a, i);
    assert rest[0] == a[i];
    assert rest[1..] == Drop(a, i + 1);
    assert ByteAt(rest, 1) == ByteAt(a, i + 1) && ByteAt(rest, 2) == ByteAt(a, i + 2);
    assert Drop(rest, 2) == Drop(a, i + 2) && Drop(rest, 3) == Drop(a, i + 3);
  }

  /** Bytes below 0x80 map one to one onto the same code units. */
  lemma {:induction false} DecodeAscii(a: seq<byte>)
    requires forall i :: 0 <= i < |a| ==> a[i] < 0x80
    ensures Decode(a) == Widen(a)
  {
    if a != [] {
      DecodeAscii(a[1..]);
      assert Widen(a) == [a[0] as CodeUnit] + Widen(a[1..]);
    }
  }

  /**
   * How many bytes each lead byte consumes: one for ASCII, two for 0xC_/0xD_,
   * three for 0xE_, and the bytes 0x80-0xBF and 0xF0-0xFF yield nothing.
   */
  lemma {:induction false} DecodeConsumes(c: byte, rest: seq<byte>)
    ensures c < 0x80 ==> Decode([c] + rest) == [c as CodeUnit] + Decode(rest)
    ensures 0xC0 <= c < 0xE0 && |rest| >= 1 ==>
      Decode([c] + rest) == [TwoByteUnit(c, rest[0])] + Decode(rest[1..])
    ensures 0xE0 <= c < 0xF0 && |rest| >= 2 ==>
      Decode([c] + rest) == [ThreeByteUnit(c, rest[0], rest[1])] + Decode(rest[2..])
    ensures (0x80 <= c < 0xC0 || 0xF0 <= c) ==> Decode([c] + rest) == Decode(rest)
  {
    var a := [c] + rest;
    assert a[1..] == rest;
    if |rest| >= 1 {
      assert Drop(a, 2) == rest[1..];
    }
    if |rest| >= 2 {
      assert Drop(a, 3) == rest[2..];
    }
  }

  /** A multi-byte lead at the very end reads its missing continuation bytes as 0. */
  lemma {:induction false} TruncatedLeadReadsZeros(c: byte)
    requires 0xE0 <= c < 0xF0
    ensures Decode([c]) == [(c % 0x10) * 0x1000]
  {
    assert Drop([c], 3) == [];
  }

  /**
   * A 4-byte UTF-8 sequence (a character outside the Basic Multilingual
   * Plane) matches no case of the decoder: its lead byte 0xF0-0xF7 and its
   * three continuation bytes are all skipped, so the character vanishes.
   */
  lemma {:induction false} FourByteSequenceVanishes(c: byte, c2: byte, c3: byte, c4: byte, rest: seq<byte>)
    requires 0xF0 <= c < 0xF8
    requires 0x80 <= c2 < 0xC0 && 0x80 <= c3 < 0xC0 && 0x80 <= c4 < 0xC0
    ensures Decode([c, c2, c3, c4] + rest) == Decode(rest)
  {
    DecodeConsumes(c4, rest);
    DecodeConsumes(c3, [c4] + rest);
    DecodeConsumes(c2, [c3] + ([c4] + rest));
    DecodeConsumes(c, [c2] + ([c3] + ([c4] + rest)));
    assert [c, c2, c3, c4] + rest == [c] + ([c2] + ([c3] + ([c4] + rest)));
  }

  // ------------------------------------------------------------ the encoder

  /**
   * The per-code-unit 1-3 byte encoding the decoder inverts: the RFC 3629
   * section 3 bit layout applied to each UTF-16 unit on its own. For
   * characters in the Basic Multilingual Plane this is UTF-8; a surrogate
   * pair becomes two 3-byte groups (as in CESU-8), which RFC 3629 forbids
   * but the decoder, having no validation, accepts.
   */
  function EncodeUnit(u: CodeUnit): (b: seq<byte>)
    ensures 1 <= |b| <= 3
  {
    if u < 0x80 then [u]
    else if u < 0x800 then [0xC0 + u / 0x40, 0x80 + u % 0x40]
    else [0xE0 + u / 0x1000, 0x80 + (u / 0x40) % 0x40, 0x80 + u % 0x40]
  }

  function Encode(s: JsString): seq<byte>
  {
    if s == [] then [] else EncodeUnit(s[0]) + Encode(s[1..])
  }

  lemma {:induction false} DecodeEncodeUnit(u: CodeUnit, rest: seq<byte>)
    ensures Decode(EncodeUnit(u) + rest) == [u] + Decode(rest)
  {
    var b := EncodeUnit(u);
    if u < 0x80 {
      DecodeConsumes(b[0], rest);
    } else if u < 0x800 {
      var tail := [b[1]] + rest;
      assert b + rest == [b[0]] + tail;
      DecodeConsumes(b[0], tail);
      assert tail[1..] == rest;
      TwoByteInverse(u);
    } else {
      var tail := [b[1], b[2]] + rest;
      assert b + rest == [b[0]] + tail;
      DecodeConsumes(b[0], tail);
      assert tail[2..] == rest;
      ThreeByteInverse(u);
    }
  }

  lemma {:induction false} TwoByteInverse(u: CodeUnit)
    requires 0x80 <= u < 0x800
    ensures 0xC0 <= 0xC0 + u / 0x40 < 0xE0
    ensures TwoByteUnit(0xC0 + u / 0x40, 0x80 + u % 0x40) == u
  {
    assert (0xC0 + u / 0x40) % 0x20 == u / 0x40;
    assert (0x80 + u % 0x40) % 0x40 == u % 0x40;
  }

  lemma {:induction false} ThreeByteInverse(u: CodeUnit)
    requires 0x800 <= u
    ensures 0xE0 <= 0xE0 + u / 0x1000 < 0xF0
    ensures ThreeByteUnit(0xE0 + u / 0x1000, 0x80 + (u / 0x40) % 0x40, 0x80 + u % 0x40) == u
  {
    assert (0xE0 + u / 0x1000) % 0x10 == u / 0x1000;
    assert (0x80 + (u / 0x40) % 0x40) % 0x40 == (u / 0x40) % 0x40;
    assert (0x80 + u % 0x40) % 0x40 == u % 0x40;
    assert u / 0x40 == (u / 0x1000) * 0x40 + (u / 0x40) % 0x40;
  }

  /** Decoding undoes encoding for every string of code units. */
  lemma {:induction false} DecodeEncode(s: JsString)
    ensures Decode(Encode(s)) == s
  {
    if s != [] {
      DecodeEncodeUnit(s[0], Encode(s[1..]));
      DecodeEncode(s[1..]);
    }
  }
}
