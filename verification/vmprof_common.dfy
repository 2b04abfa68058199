/** Profiler start-up, header serialisation and the frame walk (src/vmprof_common.h).

    The process-wide globals `profile_file`, `prepare_interval_usec` and
    `current_codes` are the fields of a `Profiler` object. What the code gets
    from collaborators that are not part of this model is passed in as a
    parameter: the outcome of `prepare_concurrent_bufs`, the descriptor
    `pipe_gzip` returns, the result of `_write_all`, the text `strerror(errno)`
    gives, the value of `(int)(interval * 1000000.0)`, and the
    `CODE_ADDR_TO_UID` mapping. A `long` is 8 bytes stored little-endian. */
module VmprofCommon {
  import opened LittleEndian
  import Binary

  const MarkerHeader: byte := 0x05

  const VersionThreadId: byte := 0x01
  const VersionMemory: byte := 0x03

  /** `sizeof(long)` on the modelled platform. */
  const SizeofLong: nat := 8
  /** The longest interpreter name the header carries. */
  const MaxNameLen: nat := 255
  /** `sizeof` the `hdr` words plus the `interp_name` bytes of the header struct. */
  const HeaderCapacity: nat := 5 * SizeofLong + 259

  type int32 = x: int | -0x8000_0000 <= x < 0x8000_0000

  datatype Option<T> = None | Some(value: T)

  /** Which platform macros the file is compiled with. */
  datatype Build = Build(unix: bool, apple: bool)
  {
    /** `ENABLE_GZIP`; it also decides whether `current_codes` exists. */
    predicate EnableGzip() { unix || apple }
  }

  /** The error strings `vmprof_init` can return. */
  datatype InitError =
    | BadInterval
    | OutOfMemory
    | MemoryUnsupported
    | OsError(message: string)  // strerror(errno)
  {
    function Message(): string
    {
      match this
      case BadInterval => "bad value for 'interval'"
      case OutOfMemory => "out of memory"
      case MemoryUnsupported => "memory tracking not supported on non-linux"
      case OsError(m) => m
    }
  }

  /** The globals `vmprof_init` writes; `current_codes` is a pointer, 0 standing for NULL. */
  datatype Globals = Globals(profileFile: int, prepareIntervalUsec: long, currentCodes: nat)

  /** `1e-6 <= interval < 1.0`, the range `vmprof_init` accepts. */
  predicate ValidInterval(interval: real)
  {
    0.000001 <= interval < 1.0
  }

  /** What `vmprof_init` returns and leaves in the globals, check by check in the code's order. */
  function InitOutcome(build: Build, g: Globals, fd: int, interval: real, usec: int32, memory: bool,
                       bufsOk: bool, gzipFd: int, writeResult: int, osError: string): (Option<InitError>, Globals)
  {
    if interval < 0.000001 || interval >= 1.0 then (Some(BadInterval), g)
    else
      var g1 := g.(prepareIntervalUsec := usec);
      if !bufsOk then (Some(OutOfMemory), g1)
      else
        var g2 := if build.EnableGzip() then g1.(currentCodes := 0) else g1;
        if !build.unix && memory then (Some(MemoryUnsupported), g2)
        else if build.EnableGzip() && gzipFd < 0 then (Some(OsError(osError)), g2.(profileFile := -1))
        else if writeResult < 0 then (Some(OsError(osError)), g2.(profileFile := -1))
        else (None, g2.(profileFile := if build.EnableGzip() then gzipFd else fd))
  }

  /** The interval check comes first: it fails exactly outside `[1e-6, 1.0)`, and then no global changes. */
  lemma InitIntervalCheck(build: Build, g: Globals, fd: int, interval: real, usec: int32, memory: bool,
                          bufsOk: bool, gzipFd: int, writeResult: int, osError: string)
    ensures var (err, g') := InitOutcome(build, g, fd, interval, usec, memory, bufsOk, gzipFd, writeResult, osError);
      (err == Some(BadInterval) <==> !ValidInterval(interval)) &&
      (err == Some(BadInterval) ==> g' == g)
  {
  }

  /** The boundaries: exactly 1e-6 passes the interval check, exactly 1.0 fails it. */
  lemma InitIntervalBoundaries(build: Build, g: Globals, fd: int, usec: int32, memory: bool,
                               bufsOk: bool, gzipFd: int, writeResult: int, osError: string)
    ensures InitOutcome(build, g, fd, 0.000001, usec, memory, bufsOk, gzipFd, writeResult, osError).0 != Some(BadInterval)
    ensures InitOutcome(build, g, fd, 1.0, usec, memory, bufsOk, gzipFd, writeResult, osError).0 == Some(BadInterval)
  {
  }

  /** The first failing check decides the message: interval, then buffers, then memory tracking. */
  lemma InitCheckOrder(build: Build, g: Globals, fd: int, interval: real, usec: int32, memory: bool,
                       bufsOk: bool, gzipFd: int, writeResult: int, osError: string)
    ensures var err := InitOutcome(build, g, fd, interval, usec, memory, bufsOk, gzipFd, writeResult, osError).0;
      (err == Some(OutOfMemory) <==> ValidInterval(interval) && !bufsOk) &&
      (err == Some(MemoryUnsupported) <==> ValidInterval(interval) && bufsOk && !build.unix && memory)
  {
  }

  /** Only the descriptor steps leave `profile_file == -1`; the three earlier checks leave it as it was. */
  lemma InitProfileFileOnFailure(build: Build, g: Globals, fd: int, interval: real, usec: int32, memory: bool,
                                 bufsOk: bool, gzipFd: int, writeResult: int, osError: string)
    ensures var (err, g') := InitOutcome(build, g, fd, interval, usec, memory, bufsOk, gzipFd, writeResult, osError);
      (err.Some? && err.value.OsError? ==> g'.profileFile == -1 && err.value.message == osError) &&
      (err.Some? && !err.value.OsError? ==> g'.profileFile == g.profileFile)
  {
  }

  /** Init succeeds exactly when every check passes; then `profile_file` is the pipe's write end
      (or `fd` without gzip), the interval is stored and `current_codes` is NULL where it exists. */
  lemma InitSuccess(build: Build, g: Globals, fd: int, interval: real, usec: int32, memory: bool,
                    bufsOk: bool, gzipFd: int, writeResult: int, osError: string)
    requires fd >= 0
    ensures var (err, g') := InitOutcome(build, g, fd, interval, usec, memory, bufsOk, gzipFd, writeResult, osError);
      (err == None <==>
         ValidInterval(interval) && bufsOk && (build.unix || !memory) &&
         (!build.EnableGzip() || gzipFd >= 0) && writeResult >= 0) &&
      (err == None ==>
         g'.profileFile == (if build.EnableGzip() then gzipFd else fd) && g'.profileFile >= 0 &&
         g'.prepareIntervalUsec == usec &&
         g'.currentCodes == (if build.EnableGzip() then 0 else g.currentCodes))
  {
  }

  /** `strnlen(s, maxlen)`: the length of the C string `s` (ended by a 0 byte or by the end of
      the sequence), but at most `maxlen`. */
  function StrNLen(s: seq<byte>, maxlen: nat): (n: nat)
    ensures n <= maxlen && n <= |s|
    ensures forall i :: 0 <= i < n ==> s[i] != 0
    ensures n < maxlen && n < |s| ==> s[n] == 0
  {
    if maxlen == 0 || s == [] || s[0] == 0 then 0 else 1 + StrNLen(s[1..], maxlen - 1)
  }

  /** The five `hdr` words: `0, 3, 0, prepare_interval_usec, 0`. */
  function HeaderWords(usec: long): (ws: seq<long>)
    ensures |ws| == 5
  {
    [0, 3, 0, usec, 0]
  }

  /** Five words laid out one after the other, as the `hdr` array holds them. */
  lemma FiveLongsBytes(ws: seq<long>)
    requires |ws| == 5
    ensures LongsBytes(ws)
         == LongBytes(ws[0]) + LongBytes(ws[1]) + LongBytes(ws[2]) + LongBytes(ws[3]) + LongBytes(ws[4])
  {
    var w4 := ws[4..];
    var w3 := ws[3..];
    var w2 := ws[2..];
    var w1 := ws[1..];
    assert w4[1..] == [] && w3[1..] == w4 && w2[1..] == w3 && w1[1..] == w2 && ws[1..] == w1;
    assert LongsBytes(w4) == LongBytes(ws[4]);
    assert LongsBytes(w3) == LongBytes(ws[3]) + LongBytes(ws[4]);
    assert LongsBytes(w2) == LongBytes(ws[2]) + LongBytes(ws[3]) + LongBytes(ws[4]);
    assert LongsBytes(w1) == LongBytes(ws[1]) + LongBytes(ws[2]) + LongBytes(ws[3]) + LongBytes(ws[4]);
  }

  /** The four bytes after the words: the marker, a zero byte, the version byte and the name length. */
  function HeaderTrailer(memory: bool, namelen: byte): seq<byte>
  {
    [MarkerHeader, 0x00, if memory then VersionMemory else VersionThreadId, namelen]
  }

  /** The bytes `opened_profile` hands to `_write_all`. */
  function HeaderBytes(usec: long, memory: bool, name: seq<byte>): seq<byte>
  {
    var n := StrNLen(name, MaxNameLen);
    LongsBytes(HeaderWords(usec)) + HeaderTrailer(memory, n) + name[..n]
  }

  /** The header layout: `5 * sizeof(long) + 4 + namelen` bytes, the words `0, 3, 0, usec, 0`,
      the 4-byte trailer and the first `namelen = min(strlen(name), 255)` bytes of the name. */
  lemma HeaderLayout(usec: long, memory: bool, name: seq<byte>)
    ensures var h := HeaderBytes(usec, memory, name);
      var n := StrNLen(name, MaxNameLen);
      |h| == 5 * SizeofLong + 4 + n &&
      (forall k :: 0 <= k < 5 ==> h[8 * k..8 * k + 8] == LongBytes(HeaderWords(usec)[k])) &&
      h[40..44] == [MarkerHeader, 0x00, if memory then VersionMemory else VersionThreadId, n] &&
      h[44..] == name[..n]
  {
    var h := HeaderBytes(usec, memory, name);
    var ws := HeaderWords(usec);
    assert h[..40] == LongsBytes(ws);
    forall k | 0 <= k < 5
      ensures h[8 * k..8 * k + 8] == LongBytes(ws[k])
    {
      LongsBytesAt(ws, k);
      assert h[8 * k..8 * k + 8] == h[..40][8 * k..8 * k + 8];
    }
  }

  /** A word of the header read back with `read_word`. */
  lemma HeaderWordReadsBack(d: seq<byte>, off: nat, v: long)
    requires off + 8 <= |d| && d[off..off + 8] == LongBytes(v)
    ensures Binary.ReadWord(Binary.Stream(d, off)) == Binary.Ok((v, Binary.Stream(d, off + 8)))
  {
    var s := Binary.Stream(d, off);
    assert Binary.Pack(v, 8, true).value == LongBytes(v);
    assert Binary.StartsWith(s, LongBytes(v)) by {
      assert d[off..][..8] == d[off..off + 8];
    }
    Binary.ReadFixedRoundTrip(v, 8, true, s);
  }

  /** A byte of the header read back with `read_byte`. */
  lemma HeaderByteReadsBack(d: seq<byte>, off: nat)
    requires off < |d|
    ensures Binary.ReadByte(Binary.Stream(d, off)) == Binary.Ok((d[off], Binary.Stream(d, off + 1)))
  {
    assert d[off..off + 1] == [d[off]];
  }

  /** The header begins with the laid-out words. */
  lemma HeaderStartsWithWords(usec: long, memory: bool, name: seq<byte>, d: seq<byte>)
    requires HeaderBytes(usec, memory, name) <= d
    ensures 40 <= |d| && d[..40] == LongsBytes(HeaderWords(usec))
  {
    var h := HeaderBytes(usec, memory, name);
    assert h[..40] == LongsBytes(HeaderWords(usec));
    assert d[..40] == h[..40];
  }

  /** Slot `k` of a buffer that begins with laid-out words holds the `k`-th word. */
  lemma WordSlot(d: seq<byte>, ws: seq<long>, k: nat)
    requires k < |ws| && 8 * |ws| <= |d| && d[..8 * |ws|] == LongsBytes(ws)
    ensures d[8 * k..8 * k + 8] == LongBytes(ws[k])
  {
    LongsBytesAt(ws, k);
    SliceOfPrefix(d, LongsBytes(ws), 8 * k, 8 * k + 8);
  }

  /** A slice inside a prefix of `d` is the same slice of `d`. */
  lemma SliceOfPrefix(d: seq<byte>, b: seq<byte>, i: nat, j: nat)
    requires |b| <= |d| && d[..|b|] == b && i <= j <= |b|
    ensures d[i..j] == b[i..j]
  {
    forall m | 0 <= m < j - i
      ensures d[i..j][m] == b[i..j][m]
    {
      assert d[i + m] == d[..|b|][i + m];
    }
  }

  /** The five header words read back with `read_word`. */
  lemma HeaderWordsReadBack(usec: long, memory: bool, name: seq<byte>, d: seq<byte>)
    requires HeaderBytes(usec, memory, name) <= d
    ensures forall k :: 0 <= k < 5 ==>
      Binary.ReadWord(Binary.Stream(d, 8 * k)) == Binary.Ok((HeaderWords(usec)[k], Binary.Stream(d, 8 * k + 8)))
  {
    var ws := HeaderWords(usec);
    HeaderStartsWithWords(usec, memory, name, d);
    forall k | 0 <= k < 5
      ensures Binary.ReadWord(Binary.Stream(d, 8 * k)) == Binary.Ok((ws[k], Binary.Stream(d, 8 * k + 8)))
    {
      WordSlot(d, ws, k);
      HeaderWordReadsBack(d, 8 * k, ws[k]);
    }
  }

  /** The marker, zero, version and length bytes read back with `read_byte`, then the name
      with `read(namelen)`. */
  lemma HeaderTailReadsBack(usec: long, memory: bool, name: seq<byte>, d: seq<byte>)
    requires HeaderBytes(usec, memory, name) <= d
    ensures Binary.ReadByte(Binary.Stream(d, 40)) == Binary.Ok((MarkerHeader, Binary.Stream(d, 41)))
    ensures Binary.ReadByte(Binary.Stream(d, 41)) == Binary.Ok((0x00, Binary.Stream(d, 42)))
    ensures Binary.ReadByte(Binary.Stream(d, 42))
         == Binary.Ok((if memory then VersionMemory else VersionThreadId, Binary.Stream(d, 43)))
    ensures var n := StrNLen(name, MaxNameLen);
      Binary.ReadByte(Binary.Stream(d, 43)) == Binary.Ok((n, Binary.Stream(d, 44))) &&
      Binary.Read(Binary.Stream(d, 44), n) == (name[..n], Binary.Stream(d, 44 + n))
  {
    var h := HeaderBytes(usec, memory, name);
    var n := StrNLen(name, MaxNameLen);
    HeaderLayout(usec, memory, name);
    assert d[..|h|] == h;
    assert d[40] == h[40] && d[41] == h[41] && d[42] == h[42] && d[43] == h[43];
    HeaderByteReadsBack(d, 40);
    HeaderByteReadsBack(d, 41);
    HeaderByteReadsBack(d, 42);
    HeaderByteReadsBack(d, 43);
    assert d[44..44 + n] == h[44..] == name[..n];
    Binary.ReadExact(Binary.Stream(d, 44), name[..n], n);
  }

  /** The header `opened_profile` writes reads back through the readers of vmprof/binary.py:
      five `read_word`s, four `read_byte`s and a `read(namelen)` of the name, whatever follows it. */
  lemma HeaderReadsBack(usec: long, memory: bool, name: seq<byte>, d: seq<byte>)
    requires HeaderBytes(usec, memory, name) <= d
    ensures var n := StrNLen(name, MaxNameLen);
      Binary.ReadWord(Binary.Stream(d, 0)) == Binary.Ok((0, Binary.Stream(d, 8))) &&
      Binary.ReadWord(Binary.Stream(d, 8)) == Binary.Ok((3, Binary.Stream(d, 16))) &&
      Binary.ReadWord(Binary.Stream(d, 16)) == Binary.Ok((0, Binary.Stream(d, 24))) &&
      Binary.ReadWord(Binary.Stream(d, 24)) == Binary.Ok((usec as int, Binary.Stream(d, 32))) &&
      Binary.ReadWord(Binary.Stream(d, 32)) == Binary.Ok((0, Binary.Stream(d, 40))) &&
      Binary.ReadByte(Binary.Stream(d, 40)) == Binary.Ok((MarkerHeader, Binary.Stream(d, 41))) &&
      Binary.ReadByte(Binary.Stream(d, 41)) == Binary.Ok((0x00, Binary.Stream(d, 42))) &&
      Binary.ReadByte(Binary.Stream(d, 42))
        == Binary.Ok((if memory then VersionMemory else VersionThreadId, Binary.Stream(d, 43))) &&
      Binary.ReadByte(Binary.Stream(d, 43)) == Binary.Ok((n, Binary.Stream(d, 44))) &&
      Binary.Read(Binary.Stream(d, 44), n) == (name[..n], Binary.Stream(d, 44 + n))
  {
    HeaderWordsReadBack(usec, memory, name, d);
    var ws := HeaderWords(usec);
    assert ws[0] == 0 && ws[1] == 3 && ws[2] == 0 && ws[3] == usec && ws[4] == 0;
    assert Binary.ReadWord(Binary.Stream(d, 8 * 0)) == Binary.Ok((ws[0], Binary.Stream(d, 8 * 0 + 8)));
    assert Binary.ReadWord(Binary.Stream(d, 8 * 1)) == Binary.Ok((ws[1], Binary.Stream(d, 8 * 1 + 8)));
    assert Binary.ReadWord(Binary.Stream(d, 8 * 2)) == Binary.Ok((ws[2], Binary.Stream(d, 8 * 2 + 8)));
    assert Binary.ReadWord(Binary.Stream(d, 8 * 3)) == Binary.Ok((ws[3], Binary.Stream(d, 8 * 3 + 8)));
    assert Binary.ReadWord(Binary.Stream(d, 8 * 4)) == Binary.Ok((ws[4], Binary.Stream(d, 8 * 4 + 8)));
    HeaderTailReadsBack(usec, memory, name, d);
  }

  /** Stores a `long` at byte offset `off` of a buffer, as `header.hdr[k] = v` does. */
  method StoreLong(buf: array<byte>, off: nat, v: long)
    requires off + SizeofLong <= buf.Length
    modifies buf
    ensures buf[..off + SizeofLong] == old(buf[..off]) + LongBytes(v)
    ensures forall i :: off + SizeofLong <= i < buf.Length ==> buf[i] == old(buf[i])
  {
    var bs := LongBytes(v);
    forall i | 0 <= i < SizeofLong {
      buf[off + i] := bs[i];
    }
    assert buf[..off + SizeofLong] == old(buf[..off]) + bs;
  }

  /** `header.hdr[0] = 0; ... header.hdr[4] = 0;`: the five words at the start of the header. */
  method StoreHeaderWords(header: array<byte>, usec: long)
    requires 5 * SizeofLong <= header.Length
    modifies header
    ensures header[..5 * SizeofLong] == LongsBytes(HeaderWords(usec))
    ensures forall i :: 5 * SizeofLong <= i < header.Length ==> header[i] == old(header[i])
  {
    StoreLong(header, 0, 0);
    ghost var p1 := header[..8];
    StoreLong(header, 8, 3);
    ghost var p2 := header[..16];
    assert p2 == p1 + LongBytes(3);
    StoreLong(header, 16, 0);
    ghost var p3 := header[..24];
    assert p3 == p2 + LongBytes(0);
    StoreLong(header, 24, usec);
    ghost var p4 := header[..32];
    assert p4 == p3 + LongBytes(usec);
    StoreLong(header, 32, 0);
    assert header[..40] == p4 + LongBytes(0);
    assert p1 == LongBytes(0) by {
      assert old(header[..0]) == [];
    }
    FiveLongsBytes(HeaderWords(usec));
  }

  /** `header.interp_name[0..3]`: the marker, a zero byte, the version chosen by `memory`
      and the name length, right after the five words. */
  method StoreHeaderTrailer(header: array<byte>, memory: bool, namelen: byte)
    requires 5 * SizeofLong + 4 <= header.Length
    modifies header
    ensures header[..5 * SizeofLong + 4] == old(header[..5 * SizeofLong]) + HeaderTrailer(memory, namelen)
    ensures forall i :: 5 * SizeofLong + 4 <= i < header.Length ==> header[i] == old(header[i])
  {
    header[40] := MarkerHeader;
    header[41] := 0x00;
    if memory {
      header[42] := VersionMemory;
    } else {
      header[42] := VersionThreadId;
    }
    header[43] := namelen;
    assert header[40..44] == HeaderTrailer(memory, namelen);
    assert header[..44] == header[..40] + header[40..44];
  }

  /** `memcpy(&dst[off], src, n)`. */
  method MemCopy(dst: array<byte>, off: nat, src: seq<byte>, n: nat)
    requires n <= |src| && off + n <= dst.Length
    modifies dst
    ensures dst[..off + n] == old(dst[..off]) + src[..n]
    ensures forall i :: off + n <= i < dst.Length ==> dst[i] == old(dst[i])
  {
    forall i | 0 <= i < n {
      dst[off + i] := src[i];
    }
    assert dst[..off + n] == old(dst[..off]) + src[..n];
  }

  /** A Python-level frame: its code object's address (`f_code`) and its caller (`f_back`). */
  class Frame {
    var code: int
    var back: Frame?
  }

  /** `chain` lists the frames reachable from `f` through `back`, innermost first, ending at NULL. */
  ghost predicate IsChain(f: Frame?, chain: seq<Frame>)
    reads chain
  {
    (if chain == [] then f == null else f == chain[0]) &&
    (forall i :: 0 <= i < |chain| - 1 ==> chain[i].back == chain[i + 1]) &&
    (chain != [] ==> chain[|chain| - 1].back == null)
  }

  function Min(a: int, b: int): int { if a <= b then a else b }

  /** `read_trace_from_cpy_frame`: walks the chain from `frame`, writing one UID per frame into
      `result`, and stops at the end of the chain or after `maxDepth` frames. */
  method ReadTraceFromCpyFrame(frame: Frame?, ghost chain: seq<Frame>, result: array<int>,
                               maxDepth: int32, codeAddrToUid: int -> int) returns (depth: int32)
    requires IsChain(frame, chain)
    requires maxDepth <= result.Length
    modifies result
    ensures depth == if maxDepth <= 0 then 0 else Min(|chain|, maxDepth)
    ensures forall i :: 0 <= i < depth ==> result[i] == codeAddrToUid(chain[i].code)
    ensures forall i :: depth <= i < result.Length ==> result[i] == old(result[i])
  {
    depth := 0;
    var f := frame;
    while f != null && depth < maxDepth
      invariant 0 <= depth <= |chain|
      invariant maxDepth <= 0 ==> depth == 0
      invariant maxDepth > 0 ==> depth <= maxDepth
      invariant f == if depth < |chain| then chain[depth] else null
      invariant forall i :: 0 <= i < depth ==> result[i] == codeAddrToUid(chain[i].code)
      invariant forall i :: depth <= i < result.Length ==> result[i] == old(result[i])
      decreases |chain| - depth
    {
      result[depth] := codeAddrToUid(f.code);
      depth := depth + 1;
      f := f.back;
    }
  }

  /** The globals of the profiler and the two start-up routines that use them. */
  class Profiler {
    var profileFile: int
    var prepareIntervalUsec: long
    var currentCodes: nat

    /** The globals' static initialisers. */
    constructor ()
      ensures profileFile == -1 && prepareIntervalUsec == 0 && currentCodes == 0
    {
      profileFile := -1;
      prepareIntervalUsec := 0;
      currentCodes := 0;
    }

    function State(): Globals
      reads this
    {
      Globals(profileFile, prepareIntervalUsec, currentCodes)
    }

    /** `opened_profile`: fills the header struct field by field and hands its first
        `5 * sizeof(long) + 4 + namelen` bytes to `_write_all`, whose result it returns. */
    method OpenedProfile(interpName: seq<byte>, memory: bool, writeResult: int)
      returns (rc: int, handed: seq<byte>)
      ensures handed == HeaderBytes(prepareIntervalUsec, memory, interpName)
      ensures rc == writeResult
    {
      var header := new byte[HeaderCapacity];
      var namelen := StrNLen(interpName, MaxNameLen);
      StoreHeaderWords(header, prepareIntervalUsec);
      ghost var words := header[..5 * SizeofLong];
      StoreHeaderTrailer(header, memory, namelen);
      ghost var fixed := header[..5 * SizeofLong + 4];
      assert fixed == words + HeaderTrailer(memory, namelen);
      MemCopy(header, 44, interpName, namelen);
      handed := header[..5 * SizeofLong + 4 + namelen];
      assert handed == fixed + interpName[..namelen];
      rc := writeResult;
    }

    /** `vmprof_init`. */
    method Init(build: Build, fd: int, interval: real, usec: int32, memory: bool, interpName: seq<byte>,
                bufsOk: bool, gzipFd: int, writeResult: int, osError: string)
      returns (err: Option<InitError>)
      requires fd >= 0
      modifies this
      ensures (err, State())
           == InitOutcome(build, old(State()), fd, interval, usec, memory, bufsOk, gzipFd, writeResult, osError)
    {
      if interval < 0.000001 || interval >= 1.0 {
        return Some(BadInterval);
      }
      prepareIntervalUsec := usec;
      if !bufsOk {
        return Some(OutOfMemory);
      }
      if build.EnableGzip() {
        currentCodes := 0;
      }
      if !build.unix && memory {
        return Some(MemoryUnsupported);
      }
      if build.EnableGzip() {
        if gzipFd < 0 {
          profileFile := -1;
          return Some(OsError(osError));
        }
        profileFile := gzipFd;
      } else {
        profileFile := fd;
      }
      var rc, _ := OpenedProfile(interpName, memory, writeResult);
      if rc < 0 {
        profileFile := -1;
        return Some(OsError(osError));
      }
      return None;
    }
  }
}
