/**
 * The little-endian primitive readers of src/parse/mod.rs (the CRead trait), the
 * `read_string!` macro and `from_cstring`. A `Read + Seek` source is a byte sequence and
 * a cursor; every read is a function from a reader to the value read and the advanced reader.
 */
module Parse {
  import opened Common

  /** A readable, seekable source: its whole contents and the cursor (which may lie past the end). */
  datatype Reader = Reader(data: seq<byte>, pos: nat)

  /** An `f32` field, kept as the 32-bit little-endian word it was read from. */
  datatype Float = Float(bits: u32)

  // ---------------------------------------------------------------------------------------
  // Reference definitions: little-endian numbers and their encodings

  function Pow256(n: nat): (r: nat)
    ensures r > 0
  {
    if n == 0 then 1 else 0x100 * Pow256(n - 1)
  }

  /** The unsigned number whose little-endian base-256 digits are `s`. */
  function LittleEndian(s: seq<byte>): nat
  {
    if s == [] then 0 else s[0] + 0x100 * LittleEndian(s[1..])
  }

  /** The `n` little-endian digits of `v` modulo 256^n. */
  function EncodeLE(v: nat, n: nat): (s: seq<byte>)
    ensures |s| == n
  {
    if n == 0 then [] else [v % 0x100] + EncodeLE(v / 0x100, n - 1)
  }

  /** Two's-complement reading of an unsigned `bits`-bit value. */
  function ToSigned(u: nat, bits: nat): int
    requires bits > 0
  {
    if u < Pow2(bits - 1) then u else u - Pow2(bits)
  }

  /** The four-byte two's-complement little-endian encoding of an i32. */
  function EncodeI32(v: i32): (s: seq<byte>)
    ensures |s| == 4
  {
    EncodeLE(if v < 0 then v + 0x1_0000_0000 else v, 4)
  }

  /** The two-byte two's-complement little-endian encoding of an i16. */
  function EncodeI16(v: i16): (s: seq<byte>)
    ensures |s| == 2
  {
    EncodeLE(if v < 0 then v + 0x1_0000 else v, 2)
  }

  function Pow2(n: nat): (r: nat)
    ensures r > 0
  {
    if n == 0 then 1 else 2 * Pow2(n - 1)
  }

  lemma {:induction false} LemmaLittleEndianBound(s: seq<byte>)
    ensures LittleEndian(s) < Pow256(|s|)
  {
    if s != [] {
      LemmaLittleEndianBound(s[1..]);
    }
  }

  /** Decoding undoes encoding for every value that fits in `n` bytes. */
  lemma {:induction false} LemmaDecodeEncode(v: nat, n: nat)
    requires v < Pow256(n)
    ensures LittleEndian(EncodeLE(v, n)) == v
  {
    if n > 0 {
      LemmaDecodeEncode(v / 0x100, n - 1);
    }
  }

  /** Encoding undoes decoding: every byte string is the encoding of the number it denotes. */
  lemma {:induction false} LemmaEncodeDecode(s: seq<byte>)
    ensures EncodeLE(LittleEndian(s), |s|) == s
  {
    if s != [] {
      LemmaEncodeDecode(s[1..]);
      var v := LittleEndian(s);
      assert v % 0x100 == s[0] && v / 0x100 == LittleEndian(s[1..]);
    }
  }

  // ---------------------------------------------------------------------------------------
  // The reader operations

  /** Bytes `n` further on from the cursor are available. */
  predicate Has(r: Reader, n: nat)
  {
    r.pos + n <= |r.data|
  }

  /**
   * `read_exact` into an `n`-byte buffer, which is what `read_string!(r, n)` expands to:
   * exactly `n` bytes from the cursor, or an I/O error when fewer remain. An empty read
   * succeeds wherever the cursor is.
   */
  function ReadString(r: Reader, n: nat): (res: Result<(seq<byte>, Reader)>)
    ensures res.Ok? <==> n == 0 || Has(r, n)
    ensures res.Ok? ==> |res.value.0| == n && res.value.1 == Reader(r.data, r.pos + n)
    ensures res.Ok? && n > 0 ==> res.value.0 == r.data[r.pos .. r.pos + n]
    ensures res.Err? ==> res.error == Io
  {
    if r.pos + n <= |r.data| then Ok((r.data[r.pos .. r.pos + n], Reader(r.data, r.pos + n)))
    else if n == 0 then Ok(([], r))
    else Err(Io)
  }

  // Fixed-position views of the little-endian fields, written out byte by byte so that a
  // record layout can be stated without unfolding the recursive reference definitions.

  function U16At(data: seq<byte>, pos: nat): u16
    requires pos + 2 <= |data|
  {
    data[pos] as int + 0x100 * data[pos + 1] as int
  }

  function U32At(data: seq<byte>, pos: nat): u32
    requires pos + 4 <= |data|
  {
    data[pos] as int + 0x100 * data[pos + 1] as int + 0x1_0000 * data[pos + 2] as int
      + 0x100_0000 * data[pos + 3] as int
  }

  function I8At(data: seq<byte>, pos: nat): i8
    requires pos + 1 <= |data|
  {
    if data[pos] < 0x80 then data[pos] else data[pos] as int - 0x100
  }

  function I16At(data: seq<byte>, pos: nat): i16
    requires pos + 2 <= |data|
  {
    var u := U16At(data, pos);
    if u < 0x8000 then u else u - 0x1_0000
  }

  function I32At(data: seq<byte>, pos: nat): i32
    requires pos + 4 <= |data|
  {
    var u := U32At(data, pos);
    if u < 0x8000_0000 then u else u - 0x1_0000_0000
  }

  /** The fixed-position views agree with the reference little-endian and two's-complement readings. */
  lemma LemmaFieldsAreLittleEndian(data: seq<byte>, pos: nat)
    ensures pos + 1 <= |data| ==> I8At(data, pos) == ToSigned(LittleEndian(data[pos .. pos + 1]), 8)
    ensures pos + 2 <= |data| ==> U16At(data, pos) == LittleEndian(data[pos .. pos + 2])
    ensures pos + 2 <= |data| ==> I16At(data, pos) == ToSigned(LittleEndian(data[pos .. pos + 2]), 16)
    ensures pos + 4 <= |data| ==> U32At(data, pos) == LittleEndian(data[pos .. pos + 4])
    ensures pos + 4 <= |data| ==> I32At(data, pos) == ToSigned(LittleEndian(data[pos .. pos + 4]), 32)
  {
    Pow2Values();
    if pos + 1 <= |data| {
      var b := data[pos .. pos + 1];
      assert LittleEndian(b) == b[0] + 0x100 * LittleEndian(b[1..]);
      assert b[1..] == [];
    }
    if pos + 2 <= |data| {
      var b := data[pos .. pos + 2];
      assert LittleEndian(b) == b[0] + 0x100 * (b[1] + 0x100 * LittleEndian(b[1..][1..]));
      assert b[1..][1..] == [];
    }
    if pos + 4 <= |data| {
      var b := data[pos .. pos + 4];
      assert b[1..][1..][1..][1..] == [];
      assert LittleEndian(b[1..][1..][1..]) == b[3];
      assert LittleEndian(b[1..][1..]) == b[2] as int + 0x100 * b[3] as int;
      assert LittleEndian(b[1..]) == b[1] as int + 0x100 * b[2] as int + 0x1_0000 * b[3] as int;
    }
  }

  /** `read_uchar`: one byte, unsigned. */
  function ReadUChar(r: Reader): (res: Result<(byte, Reader)>)
    ensures res.Ok? <==> Has(r, 1)
    ensures res.Ok? ==> res.value == (r.data[r.pos], Reader(r.data, r.pos + 1))
    ensures res.Err? ==> res.error == Io
  {
    var (b, next) :- ReadString(r, 1);
    Ok((b[0], next))
  }

  /** `read_ushort`: two bytes, little-endian unsigned. */
  function ReadUShort(r: Reader): (res: Result<(u16, Reader)>)
    ensures res.Ok? <==> Has(r, 2)
    ensures res.Ok? ==> res.value == (U16At(r.data, r.pos), Reader(r.data, r.pos + 2))
    ensures res.Err? ==> res.error == Io
  {
    var (b, next) :- ReadString(r, 2);
    var v: u16 := b[0] as int + 0x100 * b[1] as int;
    Ok((v, next))
  }

  /** `read_ulong`: four bytes, little-endian unsigned. */
  function ReadULong(r: Reader): (res: Result<(u32, Reader)>)
    ensures res.Ok? <==> Has(r, 4)
    ensures res.Ok? ==> res.value == (U32At(r.data, r.pos), Reader(r.data, r.pos + 4))
    ensures res.Err? ==> res.error == Io
  {
    var (b, next) :- ReadString(r, 4);
    var v: u32 := b[0] as int + 0x100 * b[1] as int + 0x1_0000 * b[2] as int + 0x100_0000 * b[3] as int;
    Ok((v, next))
  }

  /** `read_char`: one byte, two's complement. */
  function ReadChar(r: Reader): (res: Result<(i8, Reader)>)
    ensures res.Ok? <==> Has(r, 1)
    ensures res.Ok? ==> res.value == (I8At(r.data, r.pos), Reader(r.data, r.pos + 1))
    ensures res.Err? ==> res.error == Io
  {
    var (u, next) :- ReadUChar(r);
    var v: i8 := if u < 0x80 then u else u - 0x100;
    Ok((v, next))
  }

  /** `read_short`: two bytes, little-endian two's complement. */
  function ReadShort(r: Reader): (res: Result<(i16, Reader)>)
    ensures res.Ok? <==> Has(r, 2)
    ensures res.Ok? ==> res.value == (I16At(r.data, r.pos), Reader(r.data, r.pos + 2))
    ensures res.Err? ==> res.error == Io
  {
    var (u, next) :- ReadUShort(r);
    var v: i16 := if u < 0x8000 then u else u - 0x1_0000;
    Ok((v, next))
  }

  /** `read_long`: four bytes, little-endian two's complement. */
  function ReadLong(r: Reader): (res: Result<(i32, Reader)>)
    ensures res.Ok? <==> Has(r, 4)
    ensures res.Ok? ==> res.value == (I32At(r.data, r.pos), Reader(r.data, r.pos + 4))
    ensures res.Err? ==> res.error == Io
  {
    var (u, next) :- ReadULong(r);
    var v: i32 := if u < 0x8000_0000 then u else u - 0x1_0000_0000;
    Ok((v, next))
  }

  /** `read_float`: four bytes, kept as the raw word. */
  function ReadFloat(r: Reader): (res: Result<(Float, Reader)>)
    ensures res.Ok? <==> Has(r, 4)
    ensures res.Ok? ==> res.value == (Float(U32At(r.data, r.pos)), Reader(r.data, r.pos + 4))
    ensures res.Err? ==> res.error == Io
  {
    var (u, next) :- ReadULong(r);
    Ok((Float(u), next))
  }

  lemma Pow2Values()
    ensures Pow2(7) == 0x80 && Pow2(8) == 0x100
    ensures Pow2(15) == 0x8000 && Pow2(16) == 0x1_0000
    ensures Pow2(31) == 0x8000_0000 && Pow2(32) == 0x1_0000_0000
  {
    assert Pow2(8) == 0x100;
    assert Pow2(16) == 0x1_0000 by { assert Pow2(12) == 0x1000; }
    assert Pow2(24) == 0x100_0000 by { assert Pow2(20) == 0x10_0000; }
    assert Pow2(32) == 0x1_0000_0000 by { assert Pow2(28) == 0x1000_0000; }
  }

  /** `SeekFrom::Start(p)` on an in-memory cursor: always succeeds, even past the end. */
  function CursorSeek(r: Reader, p: u64): (res: Reader)
    ensures res.data == r.data && res.pos == p
  {
    Reader(r.data, p)
  }

  /**
   * `SeekFrom::Start(p)` on a file: the operating system takes the offset as a signed
   * 64-bit number, so an offset of 2^63 or more is refused with an I/O error.
   */
  function FileSeek(r: Reader, p: u64): (res: Result<Reader>)
    ensures res.Ok? <==> p < ISIZE_LIMIT
    ensures res.Ok? ==> res.value == Reader(r.data, p)
    ensures res.Err? ==> res.error == Io
  {
    if p < ISIZE_LIMIT then Ok(Reader(r.data, p)) else Err(Io)
  }

  // ---------------------------------------------------------------------------------------
  // Round trips of the primitive readers

  /** Reading an encoded unsigned 16-bit value gives the value back and moves past it. */
  lemma LemmaReadUShortRoundTrip(prefix: seq<byte>, v: u16, rest: seq<byte>)
    ensures ReadUShort(Reader(prefix + EncodeLE(v, 2) + rest, |prefix|))
         == Ok((v, Reader(prefix + EncodeLE(v, 2) + rest, |prefix| + 2)))
  {
    var data := prefix + EncodeLE(v, 2) + rest;
    assert data[|prefix| .. |prefix| + 2] == EncodeLE(v, 2);
    LemmaDecodeEncode(v, 2);
    LemmaFieldsAreLittleEndian(data, |prefix|);
  }

  /** Reading an encoded unsigned 32-bit value gives the value back and moves past it. */
  lemma LemmaReadULongRoundTrip(prefix: seq<byte>, v: u32, rest: seq<byte>)
    ensures ReadULong(Reader(prefix + EncodeLE(v, 4) + rest, |prefix|))
         == Ok((v, Reader(prefix + EncodeLE(v, 4) + rest, |prefix| + 4)))
  {
    var data := prefix + EncodeLE(v, 4) + rest;
    assert data[|prefix| .. |prefix| + 4] == EncodeLE(v, 4);
    LemmaDecodeEncode(v, 4);
    LemmaFieldsAreLittleEndian(data, |prefix|);
  }

  /** Reading a two's-complement encoded 32-bit value gives the value back. */
  lemma LemmaReadLongRoundTrip(prefix: seq<byte>, v: i32, rest: seq<byte>)
    ensures var data := prefix + EncodeI32(v) + rest;
            ReadLong(Reader(data, |prefix|)) == Ok((v, Reader(data, |prefix| + 4)))
  {
    Pow2Values();
    var u := if v < 0 then v + 0x1_0000_0000 else v;
    assert 0 <= u < 0x1_0000_0000;
    LemmaReadULongRoundTrip(prefix, u, rest);
  }

  /** Reading a two's-complement encoded 16-bit value gives the value back. */
  lemma LemmaReadShortRoundTrip(prefix: seq<byte>, v: i16, rest: seq<byte>)
    ensures var data := prefix + EncodeI16(v) + rest;
            ReadShort(Reader(data, |prefix|)) == Ok((v, Reader(data, |prefix| + 2)))
  {
    Pow2Values();
    var u := if v < 0 then v + 0x1_0000 else v;
    assert 0 <= u < 0x1_0000;
    LemmaReadUShortRoundTrip(prefix, u, rest);
  }

  // ---------------------------------------------------------------------------------------
  // C strings

  /** A continuation byte 10xxxxxx. */
  predicate Cont(b: byte) { 0x80 <= b <= 0xBF }

  /**
   * Well-formed UTF-8 in the sense of `str::from_utf8`: the byte patterns of the Unicode
   * standard, without overlong forms, surrogates or code points above U+10FFFF.
   */
  predicate IsUtf8(s: seq<byte>)
    decreases |s|
  {
    if s == [] then true
    else if s[0] < 0x80 then IsUtf8(s[1..])
    else if 0xC2 <= s[0] <= 0xDF then
      |s| >= 2 && Cont(s[1]) && IsUtf8(s[2..])
    else if s[0] == 0xE0 then
      |s| >= 3 && 0xA0 <= s[1] <= 0xBF && Cont(s[2]) && IsUtf8(s[3..])
    else if 0xE1 <= s[0] <= 0xEC || 0xEE <= s[0] <= 0xEF then
      |s| >= 3 && Cont(s[1]) && Cont(s[2]) && IsUtf8(s[3..])
    else if s[0] == 0xED then
      |s| >= 3 && 0x80 <= s[1] <= 0x9F && Cont(s[2]) && IsUtf8(s[3..])
    else if s[0] == 0xF0 then
      |s| >= 4 && 0x90 <= s[1] <= 0xBF && Cont(s[2]) && Cont(s[3]) && IsUtf8(s[4..])
    else if 0xF1 <= s[0] <= 0xF3 then
      |s| >= 4 && Cont(s[1]) && Cont(s[2]) && Cont(s[3]) && IsUtf8(s[4..])
    else if s[0] == 0xF4 then
      |s| >= 4 && 0x80 <= s[1] <= 0x8F && Cont(s[2]) && Cont(s[3]) && IsUtf8(s[4..])
    else false
  }

  /** Seven-bit text is valid UTF-8. */
  lemma {:induction false} LemmaAsciiIsUtf8(s: seq<byte>)
    requires forall i :: 0 <= i < |s| ==> s[i] < 0x80
    ensures IsUtf8(s)
  {
    if s != [] {
      LemmaAsciiIsUtf8(s[1..]);
    }
  }

  /** The index of the first 0 byte, or the length when there is none. */
  function FirstNul(data: seq<byte>): (end: nat)
    ensures end <= |data|
    ensures forall i :: 0 <= i < end ==> data[i] != 0
    ensures end < |data| ==> data[end] == 0
  {
    if data == [] || data[0] == 0 then 0 else 1 + FirstNul(data[1..])
  }

  /**
   * `from_cstring`: the bytes before the first NUL (all of them when there is none), as a
   * string, or a UTF-8 error when that prefix is not valid UTF-8.
   */
  function FromCString(data: seq<byte>): (res: Result<seq<byte>>)
    ensures res.Ok? <==> IsUtf8(data[..FirstNul(data)])
    ensures res.Ok? ==> 0 !in res.value && |res.value| <= |data|
    ensures res.Ok? ==> res.value == data[..|res.value|]
    ensures res.Ok? && |res.value| < |data| ==> data[|res.value|] == 0
    ensures res.Err? ==> res.error == Utf8
  {
    var end := FirstNul(data);
    if IsUtf8(data[..end]) then Ok(data[..end]) else Err(Utf8)
  }

  /** A NUL-free valid string, NUL-terminated and padded with anything, reads back as itself. */
  lemma LemmaFromCStringRoundTrip(s: seq<byte>, padding: seq<byte>)
    requires 0 !in s && IsUtf8(s)
    ensures FromCString(s + [0] + padding) == Ok(s)
    ensures FromCString(s) == Ok(s)
  {
    var data := s + [0] + padding;
    var end := FirstNul(data);
    assert forall i :: 0 <= i < |s| ==> data[i] == s[i];
    assert data[|s|] == 0;
    assert end == |s|;
    assert data[..end] == s;
    var e2 := FirstNul(s);
    assert forall i :: 0 <= i < |s| ==> s[i] in s;
    assert s[..e2] == s;
  }
}
