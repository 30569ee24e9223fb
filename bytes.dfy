/** Fixed-width unsigned integers, their little-endian byte encodings, and the
    one-byte-per-character view of strings that the archive format uses. */
module Bytes {

  type u8 = x: int | 0 <= x < 0x100
  type u16 = x: int | 0 <= x < 0x1_0000
  type u32 = x: int | 0 <= x < 0x1_0000_0000

  const U32_LIMIT: int := 0x1_0000_0000

  /** Little-endian 16-bit value stored at `pos`. */
  function U16At(data: seq<u8>, pos: nat): (v: u16)
    requires pos + 2 <= |data|
    ensures v % 0x100 == data[pos] && v / 0x100 == data[pos + 1]
  {
    data[pos] as int + 0x100 * data[pos + 1] as int
  }

  /** Little-endian 32-bit value stored at `pos`. */
  function U32At(data: seq<u8>, pos: nat): (v: u32)
    requires pos + 4 <= |data|
    ensures v % 0x1_0000 == U16At(data, pos) && v / 0x1_0000 == U16At(data, pos + 2)
  {
    U16At(data, pos) as int + 0x1_0000 * U16At(data, pos + 2) as int
  }

  /** The two bytes `writeUInt16LE` stores. */
  function LE16(v: u16): (b: seq<u8>)
    ensures |b| == 2
  {
    [v % 0x100, v / 0x100]
  }

  /** The four bytes `writeUInt32LE` stores. */
  function LE32(v: u32): (b: seq<u8>)
    ensures |b| == 4
  {
    LE16(v % 0x1_0000) + LE16(v / 0x1_0000)
  }

  lemma LE16RoundTrip(v: u16, data: seq<u8>, pos: nat)
    requires pos + 2 <= |data| && data[pos..pos + 2] == LE16(v)
    ensures U16At(data, pos) == v
  {
    assert data[pos] == LE16(v)[0] && data[pos + 1] == LE16(v)[1];
  }

  /** Reading back what was written yields the written value. */
  lemma LE32RoundTrip(v: u32, data: seq<u8>, pos: nat)
    requires pos + 4 <= |data| && data[pos..pos + 4] == LE32(v)
    ensures U32At(data, pos) == v
  {
    assert data[pos..pos + 2] == LE16(v % 0x1_0000) by {
      assert data[pos..pos + 2] == data[pos..pos + 4][..2];
    }
    assert data[pos + 2..pos + 4] == LE16(v / 0x1_0000) by {
      assert data[pos + 2..pos + 4] == data[pos..pos + 4][2..];
    }
    LE16RoundTrip(v % 0x1_0000, data, pos);
    LE16RoundTrip(v / 0x1_0000, data, pos + 2);
  }

  /** `n` zero bytes: what `Buffer.alloc(n)` holds. */
  function Zeros(n: nat): (z: seq<u8>)
    ensures |z| == n && forall i | 0 <= i < n :: z[i] == 0
  {
    seq(n, _ => 0)
  }

  /** `buf` with `chunk` copied over it from index `at` on. */
  function Overlay(buf: seq<u8>, at: nat, chunk: seq<u8>): (r: seq<u8>)
    requires at + |chunk| <= |buf|
    ensures |r| == |buf|
    ensures r[..at] == buf[..at] && r[at..at + |chunk|] == chunk && r[at + |chunk|..] == buf[at + |chunk|..]
  {
    buf[..at] + chunk + buf[at + |chunk|..]
  }

  /** The bytes a positioned read of `length` bytes at `position` obtains from
      a file holding `file`: fewer than asked for near the end, none past it. */
  function Window(file: seq<u8>, position: nat, length: nat): (w: seq<u8>)
    ensures |w| <= length
    ensures position + length <= |file| ==> w == file[position..position + length]
    ensures position >= |file| ==> w == []
  {
    if position >= |file| then []
    else if position + length <= |file| then file[position..position + length]
    else file[position..]
  }

  /** `w` followed by zeros up to `n` bytes: a buffer of `n` zeros after a
      short read of `w` into its front. */
  function Padded(w: seq<u8>, n: nat): (r: seq<u8>)
    requires |w| <= n
    ensures |r| == n && r[..|w|] == w
  {
    w + Zeros(n - |w|)
  }

  /** A positioned read of `length` bytes into a zeroed buffer of that size:
      byte `i` is the file's byte at `position + i`, or 0 past its end. */
  lemma PaddedWindow(file: seq<u8>, position: nat, length: nat)
    ensures forall i | 0 <= i < length ::
      Padded(Window(file, position, length), length)[i] == if position + i < |file| then file[position + i] else 0
  {
    var w := Window(file, position, length);
    var p := Padded(w, length);
    forall i | 0 <= i < length
      ensures p[i] == if position + i < |file| then file[position + i] else 0
    {
      if i < |w| {
        assert p[i] == p[..|w|][i];
        assert w == file[position..position + |w|];
      } else {
        assert p[i] == Zeros(length - |w|)[i - |w|];
      }
    }
  }

  /** Two adjacent writes are one write of both chunks. */
  lemma OverlayTwice(buf: seq<u8>, at: nat, x: seq<u8>, y: seq<u8>)
    requires at + |x| + |y| <= |buf|
    ensures Overlay(Overlay(buf, at, x), at + |x|, y) == Overlay(buf, at, x + y)
  {
    var once := Overlay(buf, at, x);
    assert once[..at + |x|] == buf[..at] + x;
    assert once[at + |x| + |y|..] == buf[at + |x| + |y|..];
  }

  /** Writing `x` just after the written part of a zero-filled buffer extends
      the written part. */
  lemma OverlayPadded(w: seq<u8>, x: seq<u8>, n: nat)
    requires |w| + |x| <= n
    ensures Overlay(Padded(w, n), |w|, x) == Padded(w + x, n)
  {
    var p := Padded(w, n);
    assert p[..|w|] == w;
    assert p[|w| + |x|..] == Zeros(n - |w| - |x|);
  }

  /** A string all of whose characters fit one byte. */
  ghost predicate IsByteString(s: string)
  {
    forall i | 0 <= i < |s| :: s[i] as int < 0x100
  }

  /** A string all of whose characters are ASCII (below 0x80). */
  ghost predicate IsAscii(s: string)
  {
    forall i | 0 <= i < |s| :: s[i] as int < 0x80
  }

  /** The UTF-8 encoding of one character: what `Buffer.write` stores for it. */
  function Utf8Char(c: char): (b: seq<u8>)
    ensures 1 <= |b| <= 4
    ensures |b| == 1 <==> c as int < 0x80
  {
    var n := c as int;
    if n < 0x80 then [n]
    else if n < 0x800 then [0xC0 + n / 0x40, 0x80 + n % 0x40]
    else if n < 0x1_0000 then [0xE0 + n / 0x1000, 0x80 + n / 0x40 % 0x40, 0x80 + n % 0x40]
    else [0xF0 + n / 0x4_0000, 0x80 + n / 0x1000 % 0x40, 0x80 + n / 0x40 % 0x40, 0x80 + n % 0x40]
  }

  /** The UTF-8 encoding of a string: what `tree.write(s, offset)` stores. */
  function Utf8(s: string): (b: seq<u8>)
    decreases |s|
  {
    if s == [] then [] else Utf8(s[..|s| - 1]) + Utf8Char(s[|s| - 1])
  }

  /** UTF-8 takes one byte per character exactly for an ASCII string, and
      then it is the one-byte-per-character encoding; any other character
      makes the bytes outnumber the characters. */
  lemma {:induction false} Utf8Length(s: string)
    ensures |Utf8(s)| >= |s|
    ensures |Utf8(s)| == |s| <==> IsAscii(s)
    ensures IsAscii(s) ==> Utf8(s) == ToBytes(s)
    decreases |s|
  {
    if s != [] {
      var init := s[..|s| - 1];
      Utf8Length(init);
      assert IsAscii(s) <==> IsAscii(init) && s[|s| - 1] as int < 0x80 by {
        assert forall i | 0 <= i < |init| :: init[i] == s[i];
      }
      if IsAscii(s) {
        assert ToBytes(s) == ToBytes(init) + [s[|s| - 1] as int];
      }
    }
  }

  /** An ASCII string is also a byte string. */
  lemma AsciiIsByteString(s: string)
    requires IsAscii(s)
    ensures IsByteString(s)
  {
  }

  /** One byte per character, as the builder writes its names; for ASCII
      names these are the UTF-8 bytes (`Utf8Length`). */
  function ToBytes(s: string): (b: seq<u8>)
    ensures |b| == |s|
  {
    seq(|s|, i requires 0 <= i < |s| => s[i] as int % 0x100)
  }

  /** One character per byte, as the `string0` reader decodes. */
  function ToChars(b: seq<u8>): (s: string)
    ensures |s| == |b|
  {
    seq(|b|, i requires 0 <= i < |b| => b[i] as char)
  }

  /** Decoding bytes gives a byte string that encodes back to the same bytes. */
  lemma BytesOfChars(b: seq<u8>)
    ensures IsByteString(ToChars(b)) && ToBytes(ToChars(b)) == b
  {
    var s := ToChars(b);
    assert forall i | 0 <= i < |b| :: s[i] as int == b[i];
  }

  /** Encoding a byte string and decoding it gives the string back. */
  lemma CharsOfBytes(s: string)
    requires IsByteString(s)
    ensures ToChars(ToBytes(s)) == s
  {
    var r := ToChars(ToBytes(s));
    assert forall i | 0 <= i < |s| :: r[i] as int == s[i] as int;
  }
}
