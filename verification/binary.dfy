/** The fixed-width codec of the profile reader (vmprof/binary.py).

    The encoders are `struct.pack` calls; the readers consume bytes from a
    file object. A file object is modelled as a `Stream`: the whole content
    and a cursor. It reads like an in-memory `io.BytesIO`: `read(n)` returns
    at most `n` bytes (everything that is left when `n` is negative) and
    never fails; `struct.unpack`
    fails when it is handed fewer or more bytes than its format needs, and
    `struct.pack` fails on a value outside the format's range. Both failures
    are `StructError` here.

    Platform assumption: `WORD_SIZE` is 8 and the native `'l'` format is
    the same as `'<q'` (a 64-bit little-endian machine). */
module Binary {
  import opened LittleEndian

  /** `WORD_SIZE`, fixed by the platform assumption. */
  const WordSize: nat := 8

  /** `VERSION_TAG` of the stream header (see vmprof_common.h). */
  const VersionTag: int := 2

  /** The Python exceptions the readers and encoders can raise. */
  datatype PyError =
    | StructError     // struct.error: wrong buffer length or value out of range
    | IndexError      // indexing the empty bytes object returned at end of file
    | ValueError      // array.frombytes on a length that is not a whole number of items
    | AssertionError  // a failed `assert`

  datatype Result<T> = Ok(value: T) | Err(error: PyError)

  /** A file object: its content and the current position. */
  datatype Stream = Stream(data: seq<byte>, pos: nat)

  /** The number of bytes between the position and the end of the file. */
  function Available(s: Stream): nat
  {
    if s.pos <= |s.data| then |s.data| - s.pos else 0
  }

  /** The bytes at the position begin with `bs`. */
  predicate StartsWith(s: Stream, bs: seq<byte>)
  {
    s.pos <= |s.data| && bs <= s.data[s.pos..]
  }

  /** How many bytes `read(n)` returns. */
  function ReadCount(s: Stream, n: int): (k: nat)
    ensures k <= Available(s)
    ensures 0 <= n <= Available(s) ==> k == n
    ensures n < 0 ==> k == Available(s)
  {
    if n < 0 || n > Available(s) then Available(s) else n
  }

  /** `fileobj.read(n)`: the bytes read and the stream after them. */
  function Read(s: Stream, n: int): (r: (seq<byte>, Stream))
    ensures |r.0| == ReadCount(s, n)
    ensures r.1 == s.(pos := s.pos + |r.0|)
    ensures StartsWith(s, r.0) || r.0 == []
  {
    var k := ReadCount(s, n);
    if k == 0 then ([], s) else (s.data[s.pos..s.pos + k], s.(pos := s.pos + k))
  }

  /** `struct.pack` of one integer in a `width`-byte little-endian format. */
  function Pack(v: int, width: nat, signed: bool): (r: Result<seq<byte>>)
    requires width >= 1
    ensures r.Ok? <==> (if signed then InSignedRange(v, width) else InUnsignedRange(v, width))
    ensures r.Ok? ==> |r.value| == width
    ensures r.Err? ==> r.error == StructError
  {
    if signed && InSignedRange(v, width) then Ok(LeBytes(ToTwos(v, width), width))
    else if !signed && InUnsignedRange(v, width) then Ok(LeBytes(v, width))
    else Err(StructError)
  }

  /** `struct.unpack(...)[0]` of one integer in a `width`-byte little-endian format. */
  function Unpack(bs: seq<byte>, width: nat, signed: bool): (r: Result<int>)
    requires width >= 1
    ensures r.Ok? <==> |bs| == width
    ensures r.Ok? ==> if signed then InSignedRange(r.value, width) else InUnsignedRange(r.value, width)
    ensures r.Err? ==> r.error == StructError
  {
    if |bs| != width then Err(StructError)
    else if signed then Ok(FromTwos(LeValue(bs), width))
    else Ok(LeValue(bs))
  }

  /** Unpacking what was packed gives the value back. */
  lemma UnpackOfPack(v: int, width: nat, signed: bool)
    requires width >= 1 && Pack(v, width, signed).Ok?
    ensures Unpack(Pack(v, width, signed).value, width, signed) == Ok(v)
  {
    if signed {
      LeValueOfLeBytes(ToTwos(v, width), width);
      TwosRoundTrip(v, 0, width);
    } else {
      LeValueOfLeBytes(v, width);
    }
  }

  /** Packing what was unpacked gives the bytes back. */
  lemma PackOfUnpack(bs: seq<byte>, width: nat, signed: bool)
    requires width >= 1 && |bs| == width
    ensures Pack(Unpack(bs, width, signed).value, width, signed) == Ok(bs)
  {
    LeBytesOfLeValue(bs);
    if signed {
      TwosRoundTrip(0, LeValue(bs), width);
    }
  }

  // ---------------------------------------------------------------------
  // Encoders

  /** `encode_le_u16`: `struct.pack('<H', value)`. */
  function EncodeLeU16(v: int): (r: Result<seq<byte>>)
    ensures r.Ok? <==> 0 <= v < 0x1_0000
    ensures r.Ok? ==> |r.value| == 2
  {
    Pack(v, 2, false)
  }

  /** `encode_le_s32`: `struct.pack('<i', value)`. */
  function EncodeLeS32(v: int): (r: Result<seq<byte>>)
    ensures r.Ok? <==> -0x8000_0000 <= v < 0x8000_0000
    ensures r.Ok? ==> |r.value| == 4
  {
    Pack(v, 4, true)
  }

  /** `encode_le_u32`: `struct.pack('<I', value)`. */
  function EncodeLeU32(v: int): (r: Result<seq<byte>>)
    ensures r.Ok? <==> 0 <= v < 0x1_0000_0000
    ensures r.Ok? ==> |r.value| == 4
  {
    Pack(v, 4, false)
  }

  /** `encode_s64`: `struct.pack('<q', value)`. */
  function EncodeS64(v: int): (r: Result<seq<byte>>)
    ensures r.Ok? <==> -0x8000_0000_0000_0000 <= v < 0x8000_0000_0000_0000
    ensures r.Ok? ==> |r.value| == 8
  {
    Pack(v, 8, true)
  }

  /** `encode_u64`: `struct.pack('<Q', value)`. */
  function EncodeU64(v: int): (r: Result<seq<byte>>)
    ensures r.Ok? <==> 0 <= v < 0x1_0000_0000_0000_0000
    ensures r.Ok? ==> |r.value| == 8
  {
    Pack(v, 8, false)
  }

  /** `encode_le_addr`: `struct.pack(UNPACK_CHAR, val)`, a signed word. */
  function EncodeLeAddr(v: int): (r: Result<seq<byte>>)
    ensures r.Ok? <==> InSignedRange(v, WordSize)
    ensures r.Ok? ==> |r.value| == WordSize
  {
    Pack(v, WordSize, true)
  }

  /** `encode_addr`: `struct.pack("l", val)`; native `'l'` is `UNPACK_CHAR` on the modelled platform. */
  function EncodeAddr(v: int): (r: Result<seq<byte>>)
    ensures r == EncodeLeAddr(v)
  {
    Pack(v, WordSize, true)
  }

  /** `encode_str`: the 4-byte signed little-endian length, then the bytes. */
  function EncodeStr(val: seq<byte>): (r: Result<seq<byte>>)
    ensures r.Ok? <==> |val| < 0x8000_0000
    ensures r.Ok? ==> |r.value| == 4 + |val| && r.value[4..] == val
    ensures r.Ok? ==> Unpack(r.value[..4], 4, true) == Ok(|val|)
  {
    match Pack(|val|, 4, true)
    case Err(e) => Err(e)
    case Ok(prefix) =>
      UnpackOfPack(|val|, 4, true);
      assert (prefix + val)[..4] == prefix;
      Ok(prefix + val)
  }

  /** The signed and the unsigned 32-bit encoders agree where both ranges overlap. */
  lemma EncodeLe32Agree(v: int)
    requires 0 <= v < 0x8000_0000
    ensures EncodeLeS32(v).Ok? && EncodeLeS32(v) == EncodeLeU32(v)
  {
  }

  /** `struct.unpack('<i')` inverts `encode_le_s32`. */
  lemma EncodeLeS32RoundTrip(v: int)
    requires EncodeLeS32(v).Ok?
    ensures Unpack(EncodeLeS32(v).value, 4, true) == Ok(v)
  {
    UnpackOfPack(v, 4, true);
  }

  /** `struct.unpack('<I')` inverts `encode_le_u32`. */
  lemma EncodeLeU32RoundTrip(v: int)
    requires EncodeLeU32(v).Ok?
    ensures Unpack(EncodeLeU32(v).value, 4, false) == Ok(v)
  {
    UnpackOfPack(v, 4, false);
  }

  // ---------------------------------------------------------------------
  // Readers

  /** `struct.unpack(fmt, fileobj.read(width))[0]` for a `width`-byte integer format. */
  function ReadFixed(s: Stream, width: nat, signed: bool): (r: Result<(int, Stream)>)
    requires width >= 1
    ensures r.Ok? <==> Available(s) >= width
    ensures r.Err? ==> r.error == StructError
    ensures r.Ok? ==> r.value.1 == s.(pos := s.pos + width)
    ensures r.Ok? ==> if signed then InSignedRange(r.value.0, width) else InUnsignedRange(r.value.0, width)
  {
    var (b, rest) := Read(s, width);
    match Unpack(b, width, signed)
    case Err(e) => Err(e)
    case Ok(v) => Ok((v, rest))
  }

  /** Reading a fixed-width integer where its packed bytes stand returns it and skips exactly them. */
  lemma ReadFixedRoundTrip(v: int, width: nat, signed: bool, s: Stream)
    requires width >= 1 && Pack(v, width, signed).Ok?
    requires StartsWith(s, Pack(v, width, signed).value)
    ensures ReadFixed(s, width, signed) == Ok((v, s.(pos := s.pos + width)))
  {
    var e := Pack(v, width, signed).value;
    assert s.data[s.pos..s.pos + width] == e;
    UnpackOfPack(v, width, signed);
  }

  /** `read_word`: one native signed word. */
  function ReadWord(s: Stream): (r: Result<(int, Stream)>)
    ensures r.Ok? <==> Available(s) >= WordSize
    ensures r.Ok? ==> r.value.1.pos == s.pos + WordSize && InSignedRange(r.value.0, WordSize)
  {
    ReadFixed(s, WordSize, true)
  }

  /** `read_le_addr`: one signed word in `UNPACK_CHAR` format. */
  function ReadLeAddr(s: Stream): (r: Result<(int, Stream)>)
    ensures r.Ok? <==> Available(s) >= WordSize
    ensures r.Ok? ==> r.value.1.pos == s.pos + WordSize && InSignedRange(r.value.0, WordSize)
    ensures r == ReadWord(s)
  {
    ReadFixed(s, WordSize, true)
  }

  /** `read_le_u16`: `struct.unpack('<H', fileobj.read(2))[0]`. */
  function ReadLeU16(s: Stream): (r: Result<(int, Stream)>)
    ensures r.Ok? <==> Available(s) >= 2
    ensures r.Ok? ==> r.value.1.pos == s.pos + 2 && 0 <= r.value.0 < 0x1_0000
  {
    ReadFixed(s, 2, false)
  }

  /** `read_le_u64`: `struct.unpack('<Q', fileobj.read(8))[0]`. */
  function ReadLeU64(s: Stream): (r: Result<(int, Stream)>)
    ensures r.Ok? <==> Available(s) >= 8
    ensures r.Ok? ==> r.value.1.pos == s.pos + 8 && 0 <= r.value.0 < 0x1_0000_0000_0000_0000
  {
    ReadFixed(s, 8, false)
  }

  /** `read_le_s64`: `struct.unpack('<q', fileobj.read(8))[0]`. */
  function ReadLeS64(s: Stream): (r: Result<(int, Stream)>)
    ensures r.Ok? <==> Available(s) >= 8
    ensures r.Ok? ==> r.value.1.pos == s.pos + 8
    ensures r.Ok? ==> -0x8000_0000_0000_0000 <= r.value.0 < 0x8000_0000_0000_0000
  {
    ReadFixed(s, 8, true)
  }

  /** `read_le_u16` inverts `encode_le_u16`. */
  lemma ReadLeU16RoundTrip(v: int, s: Stream)
    requires EncodeLeU16(v).Ok? && StartsWith(s, EncodeLeU16(v).value)
    ensures ReadLeU16(s) == Ok((v, s.(pos := s.pos + 2)))
  {
    ReadFixedRoundTrip(v, 2, false, s);
  }

  /** `read_le_u64` inverts `encode_u64`. */
  lemma ReadLeU64RoundTrip(v: int, s: Stream)
    requires EncodeU64(v).Ok? && StartsWith(s, EncodeU64(v).value)
    ensures ReadLeU64(s) == Ok((v, s.(pos := s.pos + 8)))
  {
    ReadFixedRoundTrip(v, 8, false, s);
  }

  /** `read_le_s64` inverts `encode_s64`, negative values included. */
  lemma ReadLeS64RoundTrip(v: int, s: Stream)
    requires EncodeS64(v).Ok? && StartsWith(s, EncodeS64(v).value)
    ensures ReadLeS64(s) == Ok((v, s.(pos := s.pos + 8)))
  {
    ReadFixedRoundTrip(v, 8, true, s);
  }

  /** `read_le_addr` inverts `encode_le_addr`. */
  lemma ReadLeAddrRoundTrip(v: int, s: Stream)
    requires EncodeLeAddr(v).Ok? && StartsWith(s, EncodeLeAddr(v).value)
    ensures ReadLeAddr(s) == Ok((v, s.(pos := s.pos + WordSize)))
  {
    ReadFixedRoundTrip(v, WordSize, true, s);
  }

  /** `read_byte`: one byte; at end of file indexing the empty result fails. */
  function ReadByte(s: Stream): (r: Result<(byte, Stream)>)
    ensures r.Ok? <==> Available(s) >= 1
    ensures r.Err? ==> r.error == IndexError
    ensures r.Ok? ==> r.value.1.pos == s.pos + 1 && StartsWith(s, [r.value.0])
  {
    var (b, rest) := Read(s, 1);
    if |b| == 0 then Err(IndexError) else Ok((b[0], rest))
  }

  /** `read_char`: one byte, as the character with that code. */
  function ReadChar(s: Stream): (r: Result<(char, Stream)>)
    ensures r.Ok? <==> Available(s) >= 1
    ensures r.Err? ==> r.error == IndexError
    ensures r.Ok? ==> r.value.1.pos == s.pos + 1
    ensures r.Ok? ==> r.value.0 as int < 256 && StartsWith(s, [r.value.0 as int as byte])
  {
    match ReadByte(s)
    case Err(e) => Err(e)
    case Ok((b, rest)) => Ok((b as char, rest))
  }

  /** A length in a signed `width`-byte field, then that many bytes as `read(lgt)` returns them. */
  function ReadPrefixed(s: Stream, width: nat): (r: Result<(seq<byte>, Stream)>)
    requires width >= 1
    ensures r.Ok? <==> Available(s) >= width
    ensures r.Err? ==> r.error == StructError
    ensures r.Ok? ==> r.value.1.pos == s.pos + width + |r.value.0|
    ensures r.Ok? ==> StartsWith(s.(pos := s.pos + width), r.value.0) || r.value.0 == []
  {
    match ReadFixed(s, width, true)
    case Err(e) => Err(e)
    case Ok((lgt, rest)) =>
      var (d, after) := Read(rest, lgt);
      Ok((d, after))
  }

  /** `read_bytes`: a `'<i'` length, then that many bytes. */
  function ReadBytes(s: Stream): (r: Result<(seq<byte>, Stream)>)
    ensures r.Ok? <==> Available(s) >= 4
    ensures r.Ok? ==> r.value.1.pos == s.pos + 4 + |r.value.0|
  {
    ReadPrefixed(s, 4)
  }

  /** `read_string`: a `'<i'` length when `little_endian`, a native word length otherwise,
      then that many bytes (the text decoding of the little-endian branch is not modelled). */
  function ReadString(s: Stream, littleEndian: bool): (r: Result<(seq<byte>, Stream)>)
    ensures littleEndian ==> r == ReadBytes(s)
    ensures r.Ok? <==> Available(s) >= (if littleEndian then 4 else WordSize)
    ensures r.Ok? ==> r.value.1.pos == s.pos + (if littleEndian then 4 else WordSize) + |r.value.0|
  {
    ReadPrefixed(s, if littleEndian then 4 else WordSize)
  }

  /** `read_bytes` and `read_string(little_endian=True)` invert `encode_str`
      and consume exactly its `4 + len(s)` bytes. */
  lemma EncodeStrRoundTrip(val: seq<byte>, s: Stream)
    requires EncodeStr(val).Ok? && StartsWith(s, EncodeStr(val).value)
    ensures ReadBytes(s) == Ok((val, s.(pos := s.pos + 4 + |val|)))
    ensures ReadString(s, true) == Ok((val, s.(pos := s.pos + 4 + |val|)))
  {
    var e := EncodeStr(val).value;
    var prefix := Pack(|val|, 4, true).value;
    assert e == prefix + val;
    assert prefix <= e;
    ReadFixedRoundTrip(|val|, 4, true, s);
    var rest := s.(pos := s.pos + 4);
    assert s.data[s.pos..s.pos + 4 + |val|] == e;
    assert rest.data[rest.pos..rest.pos + |val|] == val;
  }

  // ---------------------------------------------------------------------
  // Words and traces

  /** The native signed words a byte string of whole words holds (`array('l').frombytes`). */
  function Words(b: seq<byte>): (ws: seq<long>)
    requires |b| % WordSize == 0
    ensures |ws| * WordSize == |b|
    decreases |b|
  {
    if b == [] then [] else [FromTwos(LeValue(b[..WordSize]), WordSize) as long] + Words(b[WordSize..])
  }

  /** Splitting laid-out words into words gives them back. */
  lemma {:induction false} WordsOfLongsBytes(ws: seq<long>)
    ensures Words(LongsBytes(ws)) == ws
  {
    if ws != [] {
      var b := LongsBytes(ws);
      assert b[..WordSize] == LongBytes(ws[0]);
      assert b[WordSize..] == LongsBytes(ws[1..]);
      WordsOfLongsBytes(ws[1..]);
    }
  }

  /** `read_words`: `nwords` native words; a read that stops inside a word fails in `frombytes`. */
  function ReadWords(s: Stream, nwords: int): (r: Result<(seq<long>, Stream)>)
    ensures r.Ok? <==> ReadCount(s, WordSize * nwords) % WordSize == 0
    ensures r.Err? ==> r.error == ValueError
    ensures r.Ok? ==> r.value.1.pos == s.pos + WordSize * |r.value.0|
    ensures 0 <= nwords && WordSize * nwords <= Available(s) ==> r.Ok? && |r.value.0| == nwords
  {
    var (b, rest) := Read(s, WordSize * nwords);
    if |b| % WordSize != 0 then Err(ValueError) else Ok((Words(b), rest))
  }

  /** `read_trace`: `depth` words; with the tag version `depth` must be even (the pairing of
      kinds and addresses is not modelled, the words are returned as read). */
  function ReadTrace(s: Stream, depth: int, version: int): (r: Result<(seq<long>, Stream)>)
    ensures version == VersionTag && depth % 2 != 0 ==> r == Err(AssertionError)
    ensures r.Ok? ==> r.value.1.pos == s.pos + WordSize * |r.value.0|
    ensures 0 <= depth && WordSize * depth <= Available(s) && (version != VersionTag || depth % 2 == 0) ==>
              r.Ok? && |r.value.0| == depth
  {
    if version == VersionTag then
      if depth % 2 != 0 then Err(AssertionError) else ReadWords(s, (depth / 2) * 2)
    else
      ReadWords(s, depth)
  }

  /** Reading exactly the length of what stands at the position returns it. */
  lemma ReadExact(s: Stream, b: seq<byte>, n: int)
    requires StartsWith(s, b) && n == |b|
    ensures Read(s, n) == (b, s.(pos := s.pos + n))
  {
    if b != [] {
      assert s.data[s.pos..s.pos + |b|] == b;
    }
  }

  /** A length of `k` words is a whole number of words. */
  lemma WholeWords(n: nat, k: nat)
    requires n == WordSize * k
    ensures n % WordSize == 0
  {
  }

  /** `read_words` of exactly the words standing at the position splits exactly their bytes. */
  lemma ReadWordsExact(s: Stream, b: seq<byte>, nwords: nat)
    requires StartsWith(s, b) && |b| == WordSize * nwords
    ensures |b| % WordSize == 0
    ensures ReadWords(s, nwords) == Ok((Words(b), s.(pos := s.pos + |b|)))
  {
    ReadExact(s, b, WordSize * nwords);
    WholeWords(|b|, nwords);
  }

  /** `read_words` where words are laid out returns exactly those words and skips their bytes. */
  lemma {:induction false} ReadWordsRoundTrip(ws: seq<long>, s: Stream)
    requires StartsWith(s, LongsBytes(ws))
    ensures ReadWords(s, |ws|).Ok?
    ensures ReadWords(s, |ws|).value.0 == ws
    ensures ReadWords(s, |ws|).value.1 == s.(pos := s.pos + WordSize * |ws|)
  {
    ReadWordsExact(s, LongsBytes(ws), |ws|);
    WordsOfLongsBytes(ws);
  }

  /** Reading a trace where its words are laid out returns exactly those words. */
  lemma {:induction false} ReadTraceRoundTrip(ws: seq<long>, version: int, s: Stream)
    requires version != VersionTag || |ws| % 2 == 0
    requires StartsWith(s, LongsBytes(ws))
    ensures ReadTrace(s, |ws|, version).Ok?
    ensures ReadTrace(s, |ws|, version).value.0 == ws
    ensures ReadTrace(s, |ws|, version).value.1 == s.(pos := s.pos + WordSize * |ws|)
  {
    ReadWordsRoundTrip(ws, s);
    var n := if version == VersionTag then (|ws| / 2) * 2 else |ws|;
    assert n == |ws|;
    assert ReadTrace(s, |ws|, version) == ReadWords(s, n);
  }
}
