# pyut2serverlist wire codecs, modelled in Dafny

pyut2serverlist queries Unreal Engine 2 principal (master) servers and the
game servers registered with them. Every request and response goes through
two small byte-level codecs, and this project models and proves both:

- **The compact integer codec of `Buffer`** (`read_compact_int`,
  `write_compact_int`, `get_buffer`). It writes a signed value with
  |v| <= 2^32 - 1 in 1 to 5 bytes. The first byte holds the sign (bit 7),
  a "more follows" flag (bit 6) and the low 6 magnitude bits. Bytes 2-4
  hold a "more follows" flag (bit 7) and 7 more bits each. Byte 5 holds the
  last 5 bits. The implementation file `pyut2serverlist/buffer.py` is not
  part of this model. The rule is reconstructed from the two vector
  tables in `tests/buffer_test.py`, which fix it completely for the
  eleven values they list.
- **`pack` and `int_to_ip` from `pyut2serverlist/utils.py`.** `pack` prefixes
  a NUL-terminated payload with `chr(n).encode()`, the UTF-8 encoding of
  n = min(255, len + 1). That prefix is one byte for n <= 127 and two bytes
  (`C2`/`C3`, then `80 | n & 3F`) from 128 on. `int_to_ip` renders the four
  little-endian bytes of a 32-bit integer as a dotted quad, in byte order.

Layout:

| file | module | contents |
|---|---|---|
| `wrappers.dfy` | `Wrappers` | `Option`, used for input that cannot be decoded |
| `bytes.dfy` | `Bytes` | `byte`, the integers 0..255 |
| `compact_int.dfy` | `CompactInt` | `Encode` and `Decode` as functions, the canonical-form predicate `WellFormed`, and the codec lemmas |
| `buffer.dfy` | `ByteBuffer` | class `Buffer`: written bytes `data`, read cursor `pos`, and methods that call `Encode`/`Decode` |
| `buffer_test.dfy` | `BufferTest` | both vector tables, one lemma for each table, and the two test procedures |
| `utils.dfy` | `Utils` | `Pack` with its inverse `Unpack`; `IntToIp` with its inverse `IpToInt` |

Every operation is paired with an independent partner and a lemma that
connects the two:
- `Encode` with `Decode`, and with `WellFormed`, which states the canonical
  byte layout one byte at a time.
- `Pack` with `Unpack`, which is built on a general `Utf8Decode`.
- `IntToIp` with `IpToInt`, which splits a string at its dots and parses
  each field as a decimal numeral.

## Model

| member | source | states |
|---|---|---|
| `CompactInt.Encode` | tests/buffer_test.py:91-146 | write_compact_int's byte string for v: 1 to 5 bytes, bit 7 of the first byte set exactly when v is negative, a single byte exactly when \|v\| < 2^6; fixed completely by RoundTrip, WellFormedIffEncoding, EncodeLength and WriteVectors |
| `CompactInt.Decode` | tests/buffer_test.py:16-72 | read_compact_int's value and byte count at the front of the input: None on empty input, one byte whenever the first byte's continuation flag is clear, at least one byte consumed, and a non-zero result negative exactly when bit 7 of the first byte is set; fixed by RoundTrip and DecodeWellFormed on every input that begins with a canonical encoding, by TruncatedFails on every proper prefix of one, and by ReadVectors on the eleven vectors |
| `CompactInt.RoundTrip` | tests/buffer_test.py:16-146 | for every v with \|v\| <= 2^32-1, decoding Encode(v), with any bytes after it, gives back v and consumes exactly the bytes written |
| `CompactInt.DecodeWellFormed` | tests/buffer_test.py:16-71 | every canonical byte string decodes in full to an in-range value, and re-encoding that value gives back exactly the same bytes (encode(decode(b)) == b) |
| `CompactInt.EncodeWellFormed` | tests/buffer_test.py:91-146 | every encoding is canonical: 1-5 bytes; each non-final byte has its continuation bit set (bit 6 in the first byte, bit 7 after it) and the final byte has it clear; in an encoding longer than one byte the final byte's group is non-zero (no trailing zero group); the fifth byte is below 0x20; zero is never written with its sign bit set |
| `CompactInt.WellFormedIffEncoding` | tests/buffer_test.py:16-146 | a byte string is canonical if and only if it is Encode(v) for some in-range v |
| `CompactInt.EncodedLength` | tests/buffer_test.py:91-146 | the byte count for magnitude m is the least n in 1..5 with m < Bound(n) |
| `CompactInt.BoundValues` | tests/buffer_test.py:91-146 | 1, 2, 3, 4 and 5 bytes carry magnitudes below 2^6, 2^13, 2^20, 2^27 and 2^32 |
| `CompactInt.EncodeLength` | tests/buffer_test.py:91-146 | the length of Encode(v) is EncodedLength(\|v\|) |
| `CompactInt.LengthThresholds` | tests/buffer_test.py:91-146 | \|v\| <= 2^6-1 takes 1 byte, <= 2^13-1 takes 2, <= 2^20-1 takes 3, <= 2^27-1 takes 4, and up to 2^32-1 takes 5 |
| `CompactInt.EncodeMinimal` | tests/buffer_test.py:91-146 | no byte string, canonical or not, that decodes to v is shorter than Encode(v) |
| `CompactInt.SignSymmetry` | tests/buffer_test.py:33-56 | for 0 < v, Encode(v) has bit 7 of its first byte clear, and Encode(-v) differs from it only by setting that bit (3f to bf, 7f 7f to ff 7f) |
| `CompactInt.ZeroIsOneByte` | tests/buffer_test.py:42-46 | zero encodes to the single byte 00, and 00 decodes to 0 using one byte |
| `CompactInt.DecodedWithin` | tests/buffer_test.py:76-79 | a successful read never claims more bytes than the input holds |
| `ByteBuffer.Buffer.constructor` | tests/buffer_test.py:76 | Buffer(data) holds exactly data with the cursor at 0; Buffer() is Buffer([]) |
| `CompactInt.TruncatedFails` | tests/buffer_test.py:76-79 | cutting any encoding short makes decoding fail: no proper prefix of Encode(v) decodes to anything |
| `ByteBuffer.Buffer.ReadCompactInt` | tests/buffer_test.py:79 | returns the value Decode finds at the cursor and advances the cursor by the bytes consumed; on truncated input it returns None and leaves the cursor alone; the written bytes never change |
| `ByteBuffer.Buffer.WriteCompactInt` | tests/buffer_test.py:154 | appends exactly Encode(v) to the written bytes and leaves the cursor alone |
| `ByteBuffer.Buffer.GetBuffer` | tests/buffer_test.py:159 | returns everything written, whatever the cursor position |
| `BufferTest.ReadVectors` | tests/buffer_test.py:16-72 | each of the eleven read vectors, from ff ff ff ff 1f to 7f ff ff ff 1f, decodes to its listed value from -(2^32-1) to 2^32-1 and consumes all of its bytes |
| `BufferTest.WriteVectors` | tests/buffer_test.py:91-147 | each of the eleven listed values encodes to exactly its listed bytes |
| `BufferTest.TablesAgree` | tests/buffer_test.py:16-146 | the read table and the write table list the same (bytes, value) pairs in the same order |
| `BufferTest.TestReadCompactInt` | tests/buffer_test.py:74-82 | reading one compact integer from a fresh Buffer(data) gives the expected value for every read case |
| `BufferTest.TestWriteCompactInt` | tests/buffer_test.py:149-161 | writing each value into a fresh Buffer() leaves get_buffer() equal to exactly the expected bytes |
| `Utils.Pack` | pyut2serverlist/utils.py:4-7 | the result ends in 00, carries the payload unchanged and in full just before it, and is len+2 bytes long when len+1 < 128 and len+3 bytes otherwise |
| `Utils.PackLayout` | pyut2serverlist/utils.py:6-7 | the UTF-8 decoder reads n = min(255, len(data)+1) as the first code point of pack(data), and the bytes after that code point are exactly data followed by 00 |
| `Utils.Utf8Encode` | pyut2serverlist/utils.py:7 | chr(n).encode() for n <= 255: one byte below 0x80 when n < 128, otherwise a lead byte C2 or C3 and a continuation byte in 80..BF; Utf8RoundTrip shows the UTF-8 decoder reads n back |
| `Utils.Utf8RoundTrip` | pyut2serverlist/utils.py:7 | the UTF-8 prefix of any code point up to 255 decodes back to that code point, whatever follows it |
| `Utils.UnpackPack` | pyut2serverlist/utils.py:6-7 | unpacking pack(data) recovers the announced n = min(255, len(data)+1) and exactly data |
| `Utils.PackInjective` | pyut2serverlist/utils.py:6-7 | different payloads never pack to the same bytes |
| `Utils.PackShortPrefix` | pyut2serverlist/utils.py:7 | when len(data)+1 <= 127 the prefix is the single byte len(data)+1, and the total length is len(data)+2 |
| `Utils.PackLongPrefix` | pyut2serverlist/utils.py:7 | when len(data)+1 >= 128 the prefix is C0 + n/64, then 80 + n%64; its first byte is C2 or C3; the total length is len(data)+3 |
| `Utils.PackCap` | pyut2serverlist/utils.py:7 | every payload of 254 bytes or more gets the same prefix C3 BF (n = 255), and the whole payload is still emitted |
| `Utils.PrefixAccurate` | pyut2serverlist/utils.py:7 | the announced length equals the true terminated length if and only if the payload has at most 254 bytes |
| `Utils.PackEmpty` | pyut2serverlist/utils.py:6-7 | pack(b'') is 01 00 |
| `Utils.LittleEndian32` | pyut2serverlist/utils.py:12 | struct.pack("<I", p) gives four bytes o0..o3 with o0 + 256 o1 + 65536 o2 + 16777216 o3 == p |
| `Utils.Decimal` | pyut2serverlist/utils.py:12 | "%d" renders a non-empty string of digits with no dot, and a leading 0 only for 0 itself |
| `Utils.DecimalRoundTrip` | pyut2serverlist/utils.py:12 | the decimal rendering of n parses back to n |
| `Utils.IntToIp` | pyut2serverlist/utils.py:10-12 | int_to_ip(p) for 0 <= p < 2^32: the dotted quad of p's four little-endian bytes, containing exactly three dots; IntToIpFields gives its fields and IpRoundTrip its inverse |
| `Utils.IntToIpFields` | pyut2serverlist/utils.py:12 | int_to_ip(p) is exactly the four octet numerals, in little-endian byte order, joined by exactly three dots |
| `Utils.IpRoundTrip` | pyut2serverlist/utils.py:12 | parsing int_to_ip(p) and reassembling the octets as o0 + 256 o1 + 65536 o2 + 16777216 o3 gives back p |
| `Utils.IntToIpInjective` | pyut2serverlist/utils.py:12 | distinct packed addresses render as distinct strings |
| `Utils.IntToIpZero` | pyut2serverlist/utils.py:12 | int_to_ip(0) is "0.0.0.0" |

## Left out

- `pyut2serverlist/buffer.py` is not part of this model. `Buffer` keeps only what the vectors exercise: construction, `read_compact_int`, `write_compact_int` and `get_buffer`. The other readers and writers of that class are not modelled.
- CompactInt.Decode: the vectors fix only how the fifth byte's low 5 bits are read. The model keeps those 5 bits and ignores bits 5-7, so it never reads further after the fifth byte.
- CompactInt.Decode: on byte strings that are not canonical encodings the value read is the model's choice, because `buffer.py` is not modelled and no vector covers them. Examples: a trailing zero group such as `40 00` (read as 0 from two bytes), negative zero `80` (read as 0), and a fifth byte of `0x20` or more (its bits 5-7 dropped). Only Decode's own `ensures`, DecodedWithin and EncodeMinimal constrain the result there.
- ByteBuffer.Buffer.ReadCompactInt: on input that ends inside a value it returns None and leaves the cursor where it was. `buffer.py` is not modelled, and `tests/buffer_test.py` gives no truncated input, so what `read_compact_int` raises there and where its cursor ends are not fixed.
- CompactInt.Encode requires |v| <= 2^32 - 1. Larger magnitudes break the codec's contract. `buffer.py` is not modelled, and `tests/buffer_test.py` writes no such value, so what `write_compact_int` emits or raises for them is not fixed.
- Utils.IntToIp requires 0 <= p < 2^32, because `struct.pack("<I", …)` raises on anything else. The exception itself is not modelled.
- `struct` and general UTF-8 are replaced by direct byte arithmetic: code points 0..255 for the prefix, and a fixed little-endian split for the address.
- `Connection`, `PrincipalServer`, `Server` and the exception classes re-exported by `pyut2serverlist/__init__.py` are not modelled. They do socket I/O with timeouts and retries, and their sources are not part of this model. The version, author and credits strings carry no logic.
- The `unittest` harness, the dataclass case records with their names, and the assertion messages are not modelled. What they check is stated as lemmas and as the two test procedures.
