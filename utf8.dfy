/** UTF-8, the proxy's one encoding (proxy.py's ENCODING): the encoder that
    `str.encode('utf-8')` is, and the strict decoder that
    `bytes.decode('utf-8')` is, which refuses ill-formed input. */
module Utf8 {
  import opened Wrappers

  type byte = b: int | 0 <= b < 256

  /** The byte for '\n', the proxy's line separator. */
  const NEWLINE: byte := 10

  function EncodeChar(c: char): (r: seq<byte>)
    ensures 1 <= |r| <= 4
  {
    var n := c as int;
    if n < 0x80 then [n]
    else if n < 0x800 then [0xC0 + n / 64, 0x80 + n % 64]
    else if n < 0x10000 then [0xE0 + n / 4096, 0x80 + (n / 64) % 64, 0x80 + n % 64]
    else [0xF0 + n / 262144, 0x80 + (n / 4096) % 64, 0x80 + (n / 64) % 64, 0x80 + n % 64]
  }

  function Encode(s: string): seq<byte>
  {
    if s == [] then [] else EncodeChar(s[0]) + Encode(s[1..])
  }

  predicate IsContinuation(b: byte) { 0x80 <= b < 0xC0 }

  /** The first character of a byte string and the number of bytes it takes,
      or `None` when those bytes are not well-formed UTF-8 (a stray
      continuation byte, a truncated sequence, an overlong form, a surrogate,
      or a value past U+10FFFF). */
  function DecodeFirst(b: seq<byte>): Option<(char, nat)>
    requires |b| > 0
  {
    var b0: int := b[0];
    if b0 < 0x80 then Some((b0 as char, 1))
    else if 0xC0 <= b0 < 0xE0 then
      if |b| >= 2 && IsContinuation(b[1]) then
        var n: int := Value2(b0, b[1]);
        if n >= 0x80 then Some((n as char, 2)) else None
      else None
    else if 0xE0 <= b0 < 0xF0 then
      if |b| >= 3 && IsContinuation(b[1]) && IsContinuation(b[2]) then
        var n: int := Value3(b0, b[1], b[2]);
        if n >= 0x800 && !(0xD800 <= n < 0xE000) then Some((n as char, 3)) else None
      else None
    else if 0xF0 <= b0 < 0xF8 then
      if |b| >= 4 && IsContinuation(b[1]) && IsContinuation(b[2]) && IsContinuation(b[3]) then
        var n: int := Value4(b0, b[1], b[2], b[3]);
        if 0x10000 <= n < 0x110000 then Some((n as char, 4)) else None
      else None
    else None
  }

  /** The code point carried by a two-, three- or four-byte sequence. */
  function Value2(b0: int, b1: int): int { (b0 - 0xC0) * 64 + (b1 - 0x80) }
  function Value3(b0: int, b1: int, b2: int): int { (b0 - 0xE0) * 4096 + (b1 - 0x80) * 64 + (b2 - 0x80) }
  function Value4(b0: int, b1: int, b2: int, b3: int): int
  {
    (b0 - 0xF0) * 262144 + (b1 - 0x80) * 4096 + (b2 - 0x80) * 64 + (b3 - 0x80)
  }

  lemma DecodeFirstLength(b: seq<byte>)
    requires |b| > 0 && DecodeFirst(b).Some?
    ensures 1 <= DecodeFirst(b).value.1 <= |b|
  {
  }

  /** Strict decoding: `None` stands for the `UnicodeDecodeError`. */
  function Decode(b: seq<byte>): Option<string>
    decreases |b|
  {
    if b == [] then Some([])
    else match DecodeFirst(b)
      case None => None
      case Some((c, k)) =>
        DecodeFirstLength(b);
        match Decode(b[k..])
        case None => None
        case Some(rest) => Some([c] + rest)
  }

  lemma {:induction false} EncodeAppend(a: string, b: string)
    ensures Encode(a + b) == Encode(a) + Encode(b)
  {
    if a == [] {
      assert a + b == b;
    } else {
      assert (a + b)[1..] == a[1..] + b;
      EncodeAppend(a[1..], b);
    }
  }

  /** Two ways of cutting the same text encode to the same bytes. */
  lemma EncodeSplit(a: string, b: string, c: string, d: string)
    requires a + b == c + d
    ensures Encode(a) + Encode(b) == Encode(c) + Encode(d)
  {
    EncodeAppend(a, b);
    EncodeAppend(c, d);
  }

  /** The encoding of one character decodes back to it, whatever follows. */
  lemma DecodeFirstOfEncoding(c: char, rest: seq<byte>)
    ensures DecodeFirst(EncodeChar(c) + rest) == Some((c, |EncodeChar(c)|))
  {
    var n := c as int;
    var e := EncodeChar(c);
    var b := e + rest;
    assert b[..|e|] == e;
    if n < 0x80 {
    } else if n < 0x800 {
      assert Value2(b[0], b[1]) == n by { Split64(n); }
    } else if n < 0x10000 {
      assert Value3(b[0], b[1], b[2]) == n by { Split64(n); Split64(n / 64); }
    } else {
      assert Value4(b[0], b[1], b[2], b[3]) == n by { Split64(n); Split64(n / 64); Split64(n / 4096); }
    }
  }

  lemma Split64(n: nat)
    ensures n == 64 * (n / 64) + n % 64 && n / 64 / 64 == n / 4096 && n / 4096 / 64 == n / 262144
  {
  }

  /** A decoded first character re-encodes to exactly the bytes it took. */
  lemma EncodingOfDecodeFirst(b: seq<byte>)
    requires |b| > 0 && DecodeFirst(b).Some?
    ensures var (c, k) := DecodeFirst(b).value; k <= |b| && EncodeChar(c) == b[..k]
  {
    var (c, k) := DecodeFirst(b).value;
    DecodeFirstLength(b);
    if k == 2 {
      Reencode2(b[0], b[1]);
      assert b[..k] == [b[0], b[1]];
    } else if k == 3 {
      Reencode3(b[0], b[1], b[2]);
      assert b[..k] == [b[0], b[1], b[2]];
    } else if k == 4 {
      Reencode4(b[0], b[1], b[2], b[3]);
      assert b[..k] == [b[0], b[1], b[2], b[3]];
    }
  }

  lemma Reencode2(b0: byte, b1: byte)
    requires 0xC0 <= b0 < 0xE0 && IsContinuation(b1) && Value2(b0, b1) >= 0x80
    ensures EncodeChar(Value2(b0, b1) as char) == [b0, b1]
  {
    var n := Value2(b0, b1);
    assert n / 64 == b0 - 0xC0 && n % 64 == b1 - 0x80;
  }

  lemma Reencode3(b0: byte, b1: byte, b2: byte)
    requires 0xE0 <= b0 < 0xF0 && IsContinuation(b1) && IsContinuation(b2)
    requires Value3(b0, b1, b2) >= 0x800 && !(0xD800 <= Value3(b0, b1, b2) < 0xE000)
    ensures EncodeChar(Value3(b0, b1, b2) as char) == [b0, b1, b2]
  {
    var n := Value3(b0, b1, b2);
    var m := n / 64;
    assert m == (b0 - 0xE0) * 64 + (b1 - 0x80) && n % 64 == b2 - 0x80;
    assert m / 64 == b0 - 0xE0 && m % 64 == b1 - 0x80;
    Split64(n);
  }

  lemma Reencode4(b0: byte, b1: byte, b2: byte, b3: byte)
    requires 0xF0 <= b0 < 0xF8 && IsContinuation(b1) && IsContinuation(b2) && IsContinuation(b3)
    requires 0x10000 <= Value4(b0, b1, b2, b3) < 0x110000
    ensures EncodeChar(Value4(b0, b1, b2, b3) as char) == [b0, b1, b2, b3]
  {
    var n := Value4(b0, b1, b2, b3);
    var m := n / 64;
    var q := m / 64;
    assert m == (b0 - 0xF0) * 4096 + (b1 - 0x80) * 64 + (b2 - 0x80) && n % 64 == b3 - 0x80;
    assert q == (b0 - 0xF0) * 64 + (b1 - 0x80) && m % 64 == b2 - 0x80;
    assert q / 64 == b0 - 0xF0 && q % 64 == b1 - 0x80;
    Split64(n);
    Split64(m);
  }

  /** Decoding an encoding gives the text back. */
  lemma {:induction false} DecodeEncode(s: string)
    ensures Decode(Encode(s)) == Some(s)
  {
    if s != [] {
      var e := EncodeChar(s[0]);
      DecodeFirstOfEncoding(s[0], Encode(s[1..]));
      assert (e + Encode(s[1..]))[|e|..] == Encode(s[1..]);
      DecodeEncode(s[1..]);
      assert s == [s[0]] + s[1..];
    }
  }

  /** Whatever decodes, decodes from the encoding of its result: strict
      decoding is the inverse of encoding. */
  lemma {:induction false} EncodeDecode(b: seq<byte>)
    requires Decode(b).Some?
    ensures Encode(Decode(b).value) == b
    decreases |b|
  {
    hide *;
    if b == [] {
      DecodeEmpty();
    } else {
      var c, k := DecodeCons(b);
      var rest := Decode(b[k..]).value;
      EncodeDecode(b[k..]);
      EncodeCons(c, rest);
      assert b[..k] + b[k..] == b;
    }
  }

  lemma DecodeEmpty()
    ensures Decode([]) == Some([]) && Encode([]) == []
  {
  }

  /** A well-formed byte string is its first character's encoding followed
      by a well-formed rest. */
  lemma DecodeCons(b: seq<byte>) returns (c: char, k: nat)
    requires b != [] && Decode(b).Some?
    ensures 1 <= k <= |b| && Decode(b[k..]).Some?
    ensures Decode(b).value == [c] + Decode(b[k..]).value
    ensures EncodeChar(c) == b[..k]
  {
    c, k := DecodeFirst(b).value.0, DecodeFirst(b).value.1;
    DecodeFirstLength(b);
    EncodingOfDecodeFirst(b);
  }

  lemma EncodeCons(c: char, rest: string)
    ensures Encode([c] + rest) == EncodeChar(c) + Encode(rest)
  {
    assert ([c] + rest)[1..] == rest;
  }

  /** Only '\n' puts a newline byte into an encoding. */
  lemma NewlineByteOnlyFromNewline(c: char)
    ensures EncodeChar('\n') == [NEWLINE]
    ensures NEWLINE in EncodeChar(c) ==> c == '\n'
  {
  }

  lemma EncodeLast(s: string)
    requires |s| > 0
    ensures Encode(s) == Encode(s[..|s| - 1]) + EncodeChar(s[|s| - 1])
  {
    var a, x := s[..|s| - 1], s[|s| - 1];
    assert s == a + [x];
    EncodeAppend(a, [x]);
    EncodeSingle(x);
    calc {
      Encode(s);
      Encode(a + [x]);
      Encode(a) + Encode([x]);
      Encode(a) + EncodeChar(x);
    }
  }

  lemma EncodeSingle(c: char)
    ensures Encode([c]) == EncodeChar(c)
  {
    assert [c][1..] == [];
  }

  /** The last byte of a character's encoding is the newline byte only for '\n'. */
  lemma LastByteNewline(c: char)
    ensures var e := EncodeChar(c); e[|e| - 1] == NEWLINE ==> c == '\n'
  {
  }

  /** A decoded line that ended in the newline byte ends in '\n'. */
  lemma DecodedLineEndsInNewline(b: seq<byte>)
    requires |b| > 0 && b[|b| - 1] == NEWLINE && Decode(b).Some?
    ensures var s := Decode(b).value; |s| > 0 && s[|s| - 1] == '\n'
  {
    var s := Decode(b).value;
    EncodeDecode(b);
    EncodeLast(s);
    LastByteNewline(s[|s| - 1]);
  }
}
