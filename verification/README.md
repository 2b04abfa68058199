# vmprof core: start-up, profile header and the binary codec

This project models the core of vmprof, a statistical profiler for CPython,
in Dafny and proves properties of that model. It covers two parts:

- **The start-up side of the sampler** (`src/vmprof_common.h`):
  - `vmprof_init` validates the sampling interval, prepares buffers, rejects
    memory tracking where it is unsupported, and opens the (possibly gzipped)
    profile descriptor.
  - `opened_profile` writes the profile header: five native `long` words
    (`0, 3, 0, prepare_interval_usec, 0`), the `MARKER_HEADER` byte, a zero byte,
    the version byte (`VERSION_MEMORY` or `VERSION_THREAD_ID`), the length of the
    interpreter name (at most 255), and the name itself.
  - `read_trace_from_cpy_frame` walks the `f_back` chain of Python frames into a
    bounded array of code UIDs.
- **The fixed-width codec of the profile reader** (`vmprof/binary.py`): the
  `struct.pack` encoders, and the readers that consume little-endian integers,
  length-prefixed byte strings and arrays of native words from a file object.

The files are:

- `le.dfy`, module `LittleEndian`: little-endian byte layout and two's
  complement. It has the round trips between values and bytes, and the layout
  of an array of C `long`s.
- `binary.dfy`, module `Binary`: `struct.pack`/`struct.unpack` for one integer,
  the encoders, and the readers over a `Stream`.
  - A `Stream` is a file's content plus a cursor.
  - The file object reads like an in-memory `io.BytesIO`: `read(n)` returns at
    most `n` bytes (everything left when `n` is negative) and never fails.
  - Python's exceptions are the `Err` side of a `Result`: `struct.error`,
    `IndexError`, `ValueError` and `AssertionError`.
  - Every reader is proved to invert its encoder and to advance the stream by
    exactly the encoded length.
- `vmprof_common.dfy`, module `VmprofCommon`:
  - The globals `profile_file`, `prepare_interval_usec` and `current_codes` are
    the fields of a `Profiler` object.
  - `Init` and `OpenedProfile` are imperative methods. `Init` is proved against
    the specification function `InitOutcome`. `OpenedProfile` fills a byte array
    field by field and is proved against `HeaderBytes`.
  - Lemmas prove the header layout, and that the header reads back through the
    readers of `Binary`.
  - `ReadTraceFromCpyFrame` walks a linked chain of `Frame` objects into an
    array.

Platform assumption: a 64-bit little-endian machine. `sizeof(long)` and
`WORD_SIZE` are 8, and the native `'l'` format equals `'<q'`. The build's
platform macros are the `Build(unix, apple)` parameter.

## Model

| member | source | states |
|---|---|---|
| `Binary.Pack` | vmprof/binary.py:82-101 | `struct.pack` of one integer succeeds exactly when the value is in the format's signed or unsigned range, giving `width` bytes; otherwise `struct.error` |
| `Binary.Unpack` | vmprof/binary.py:73-80 | `struct.unpack` succeeds exactly when handed `width` bytes, and the value is in the format's range; otherwise `struct.error` |
| `Binary.UnpackOfPack` | vmprof/binary.py:82-95 | unpacking the bytes of a successful pack gives the value back, for every width and signedness |
| `Binary.PackOfUnpack` | vmprof/binary.py:73-80 | packing the value unpacked from any correctly sized bytes gives those bytes back |
| `Binary.EncodeLeU16` | vmprof/binary.py:82-83 | `encode_le_u16` succeeds exactly for `0 <= v < 2^16`, with 2 bytes |
| `Binary.EncodeLeS32` | vmprof/binary.py:85-86 | `encode_le_s32` succeeds exactly for `-2^31 <= v < 2^31`, with 4 bytes |
| `Binary.EncodeLeU32` | vmprof/binary.py:88-89 | `encode_le_u32` succeeds exactly for `0 <= v < 2^32`, with 4 bytes |
| `Binary.EncodeS64` | vmprof/binary.py:91-92 | `encode_s64` succeeds exactly for `-2^63 <= v < 2^63`, with 8 bytes |
| `Binary.EncodeU64` | vmprof/binary.py:94-95 | `encode_u64` succeeds exactly for `0 <= v < 2^64`, with 8 bytes |
| `Binary.EncodeLeAddr` | vmprof/binary.py:100-101 | `encode_le_addr` succeeds exactly for a signed word, with `WORD_SIZE` bytes |
| `Binary.EncodeAddr` | vmprof/binary.py:97-98 | `encode_addr` (native `'l'`) produces the same result as `encode_le_addr` for every value |
| `Binary.EncodeStr` | vmprof/binary.py:103-106 | `encode_str` succeeds exactly when the length fits a signed 32-bit field. Its output is `4 + len` bytes: a prefix that unpacks as `'<i'` to the length, then the string itself |
| `Binary.EncodeLe32Agree` | vmprof/binary.py:85-89 | for `0 <= v < 2^31` the signed and unsigned 32-bit encoders both succeed and give the same bytes |
| `Binary.EncodeLeS32RoundTrip` | vmprof/binary.py:85-86 | unpacking `'<i'` inverts `encode_le_s32` |
| `Binary.EncodeLeU32RoundTrip` | vmprof/binary.py:88-89 | unpacking `'<I'` inverts `encode_le_u32` |
| `Binary.ReadWord` | vmprof/binary.py:13-18 | `read_word` succeeds exactly when a whole word is left (a short read makes `unpack` fail), advances by `WORD_SIZE`, and yields a signed word |
| `Binary.ReadLeAddr` | vmprof/binary.py:69-71 | `read_le_addr` gives the same result as `read_word` (same size and format on the modelled platform) |
| `Binary.ReadLeU16` | vmprof/binary.py:73-74 | `read_le_u16` succeeds exactly when 2 bytes are left, advances by 2, and yields a value below 2^16 |
| `Binary.ReadLeU64` | vmprof/binary.py:76-77 | `read_le_u64` succeeds exactly when 8 bytes are left, advances by 8, and yields a value below 2^64 |
| `Binary.ReadLeS64` | vmprof/binary.py:79-80 | `read_le_s64` succeeds exactly when 8 bytes are left, advances by 8, and yields a signed 64-bit value |
| `Binary.ReadLeU16RoundTrip` | vmprof/binary.py:73-74 | reading where `encode_le_u16(v)` stands returns `v` and consumes exactly 2 bytes |
| `Binary.ReadLeU64RoundTrip` | vmprof/binary.py:76-77 | reading where `encode_u64(v)` stands returns `v` and consumes exactly 8 bytes |
| `Binary.ReadLeS64RoundTrip` | vmprof/binary.py:79-80 | reading where `encode_s64(v)` stands returns `v` (negative values included) and consumes exactly 8 bytes |
| `Binary.ReadLeAddrRoundTrip` | vmprof/binary.py:69-71 | reading where `encode_le_addr(v)` stands returns `v` and consumes exactly one word |
| `Binary.ReadByte` | vmprof/binary.py:42-46 | `read_byte` returns the byte at the cursor and advances by 1. At end of file, indexing the empty read raises `IndexError` |
| `Binary.ReadChar` | vmprof/binary.py:48-52 | `read_char` returns the character whose code is the byte at the cursor, and advances by 1. At end of file it raises `IndexError` |
| `Binary.ReadBytes` | vmprof/binary.py:54-56 | `read_bytes` succeeds exactly when a 4-byte length is left, and advances past the length and the bytes it returns |
| `Binary.ReadString` | vmprof/binary.py:58-67 | `read_string(little_endian=True)` is `read_bytes`. Otherwise the length is a native word. It succeeds exactly when the length field is complete, and advances past the length and the data |
| `Binary.EncodeStrRoundTrip` | vmprof/binary.py:54-64 | where `encode_str(val)` stands, both `read_bytes` and `read_string(little_endian=True)` return `val` and consume exactly `4 + len(val)` bytes |
| `Binary.WordsOfLongsBytes` | vmprof/binary.py:22-25 | `array('l').frombytes` of laid-out native words gives exactly those words back |
| `Binary.ReadWords` | vmprof/binary.py:20-28 | `read_words` fails with `ValueError` exactly when the read stops inside a word. It advances by the words it returns, and it returns exactly `nwords` when enough bytes are left |
| `Binary.ReadWordsRoundTrip` | vmprof/binary.py:20-28 | where words are laid out, `read_words` returns exactly those words and consumes exactly their bytes |
| `Binary.ReadTrace` | vmprof/binary.py:30-39 | with the tag version, an odd depth fails the `assert`. Otherwise `depth` words are read, and exactly `depth` are returned when enough bytes are left |
| `Binary.ReadTraceRoundTrip` | vmprof/binary.py:30-39 | where a trace's words are laid out (an even count under the tag version), `read_trace` returns them and consumes exactly their bytes |
| `LittleEndian.LongsBytesAt` | src/vmprof_common.h:117-120 | in a laid-out `long` array, the `k`-th 8-byte slot holds exactly the bytes of the `k`-th element |
| `VmprofCommon.Profiler.constructor` | src/vmprof_common.h:5-11 | the globals start as `profile_file = -1`, `prepare_interval_usec = 0` and `current_codes` NULL |
| `VmprofCommon.Profiler.Init` | src/vmprof_common.h:66-100 | `vmprof_init`'s returned message and the new globals are exactly those of `InitOutcome`, which follows the code's checks in order |
| `VmprofCommon.InitIntervalCheck` | src/vmprof_common.h:69-70 | `vmprof_init` returns "bad value for 'interval'" if and only if the interval is outside `[1e-6, 1.0)`, and then no global changes |
| `VmprofCommon.InitIntervalBoundaries` | src/vmprof_common.h:69-70 | an interval of exactly `1e-6` passes the interval check, and exactly `1.0` fails it |
| `VmprofCommon.InitCheckOrder` | src/vmprof_common.h:69-82 | "out of memory" if and only if the interval is valid and buffer preparation fails. "memory tracking not supported on non-linux" if and only if both earlier checks pass, the build is not unix, and memory tracking is requested |
| `VmprofCommon.InitProfileFileOnFailure` | src/vmprof_common.h:84-99 | an `strerror` failure (pipe or header write) leaves `profile_file == -1` and returns the OS message. The three earlier failures leave `profile_file` as it was |
| `VmprofCommon.InitSuccess` | src/vmprof_common.h:84-95 | `vmprof_init` returns NULL if and only if every check passes. Then `profile_file` is the gzip pipe (or `fd` without gzip) and non-negative, the interval is stored, and `current_codes` is NULL where it exists |
| `VmprofCommon.StrNLen` | src/vmprof_common.h:122 | `strnlen`: at most `maxlen`, no zero byte before it, and a zero byte at it when it stops early |
| `VmprofCommon.StoreHeaderWords` | src/vmprof_common.h:124-128 | after the five word stores, the first 40 header bytes are the layout of `0, 3, 0, usec, 0`, and every byte after them is unchanged |
| `VmprofCommon.StoreHeaderTrailer` | src/vmprof_common.h:129-136 | bytes 40..43 become marker, zero, version (by `memory`) and name length; the words before them and every byte after them are kept |
| `VmprofCommon.MemCopy` | src/vmprof_common.h:137 | `memcpy` puts the first `n` bytes of the source after the kept prefix, and every byte after them is unchanged |
| `VmprofCommon.Profiler.OpenedProfile` | src/vmprof_common.h:115-139 | the bytes handed to `_write_all` are exactly `HeaderBytes` of the stored interval, `memory` and the name, and the write's result is returned |
| `VmprofCommon.HeaderLayout` | src/vmprof_common.h:117-138 | the header is `5 * sizeof(long) + 4 + namelen` bytes: word `k` in slot `k`, then marker, zero, version and `namelen`, then the first `namelen` bytes of the name |
| `VmprofCommon.HeaderReadsBack` | src/vmprof_common.h:124-138 | the header, followed by anything, reads back through `read_word` ×5 (`0, 3, 0, usec, 0`), `read_byte` ×4 (marker, 0, version, `namelen`) and `read(namelen)` (the name) |
| `VmprofCommon.ReadTraceFromCpyFrame` | src/vmprof_common.h:102-111 | returns `min(chain length, max_depth)` (0 for a non-positive `max_depth`). Slot `i` below it holds the UID of the `i`-th frame's code, and the slots beyond it are unchanged |

## Left out

- `pipe_gzip` internals (fork, exec of gzip, the pipe) are not modelled. The descriptor it returns is the `gzipFd` parameter of `Init`.
- `prepare_concurrent_bufs` is not modelled. Its success is the `bufsOk` parameter.
- `_write_all` is not modelled, nor its effect on the descriptor. Its result is the `writeResult` parameter, and `OpenedProfile` returns the bytes it would be given.
- `strerror(errno)` is not modelled. Its text is the `osError` parameter.
- `CODE_ADDR_TO_UID` is not modelled. It is the function parameter `codeAddrToUid`.
- `get_current_thread_state` and the other thread-state and atomic accessors in `src/vmprof_common.h` are not modelled (interpreter internals and concurrency).
- `current_codes` is volatile and shared with the signal handler. The model records only that `vmprof_init` resets it to NULL, as 0.
- `VmprofCommon.Profiler.Init`: `prepare_interval_usec = (int)(interval * 1000000.0)` is the abstract `int32` input `usec`. Its relation to `interval` is not stated, because the model has no floating point.
- `profile_interval_usec` is declared but never written by the modelled code, so it is not modelled.
- `VmprofCommon.Profiler.Init` requires `fd >= 0`. This is the C `assert(fd >= 0)`; the abort it causes otherwise is not modelled.
- `VmprofCommon.ReadTraceFromCpyFrame` assumes the frame chain is finite and acyclic: a ghost `chain` sequence describes it. A cyclic `f_back` chain is not modelled.
- `WORD_SIZE` and `UNPACK_CHAR` are not chosen from `sys.maxsize`. A 64-bit little-endian machine is fixed instead: 32-bit and big-endian platforms are not modelled.
- Python 2 branches (`fromstring`, `ord`, no `.decode()`/`.encode()`) are not modelled; Python 3 is assumed.
- `vmprof/binary.py` uses `array` and `VERSION_TAG` without importing them, so as written `read_words` and `read_trace` would raise `NameError`. The model gives them their evident meaning: `array('l')`, and `VERSION_TAG = 2` from `src/vmprof_common.h`.
- `Binary.ReadTrace`: under the tag version, the pairing of kinds and addresses into `wrap_kind` objects is not modelled. `wrap_kind` and `xrange` are not defined in the module, and the comprehension's range starts at the length. The model returns the words as read.
- `Binary.ReadString`: the `.decode()` of the little-endian branch is not modelled (bytes are returned), so a `UnicodeDecodeError` on invalid UTF-8 is not modelled either.
- `Binary.EncodeStr`: the `.encode()` of a text argument is not modelled. The argument is already the byte string.
- `Binary.ReadBytes`: a negative `'<i'` length reads to the end of the file, as `io.BytesIO.read` does. A buffered file (`open(path, 'rb')`, or a `gzip.GzipFile` built on one) raises `ValueError` for a length below -1 instead; that behaviour is not modelled.
- `Binary.ReadString`: a negative length (the `'<i'` field or the native word) reads to the end of the file, as with `io.BytesIO`. The `ValueError` a buffered file raises for a length below -1 is not modelled.
- `Binary.ReadWords`: a negative `nwords` reads to the end of the file, as with `io.BytesIO`. The `ValueError` a buffered file raises for `WORD_SIZE * nwords < -1` is not modelled.
- `VmprofCommon.InitIntervalCheck`: the interval is a mathematical real, not a C `double`. A NaN interval fails both comparisons at src/vmprof_common.h:69, so `vmprof_init` accepts it and converts `NaN * 1000000.0`; the model has no NaN value, so this acceptance is not captured. The bound is the exact decimal `0.000001`; the `double` literal `1e-6` is slightly below it, so intervals between the two are accepted by the C code and rejected by the model.
- The file position after a reader raises is not modelled: the readers return only the error.
- A Python `assert` stripped under `python -O` is not modelled. The odd-depth check of `read_trace` always raises.
