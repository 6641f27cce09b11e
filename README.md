# BinaryReader: a verified model of a forward-only binary decoder

`BinaryReader` (io.py) is a cursor over a binary file. Each read decodes
one primitive value at the file position and moves the position forward:

- `read_7bit_encoded_int32`: a variable-length unsigned integer. Each octet
  carries seven payload bits, least significant group first. The high bit
  of an octet says that another octet follows. This is unsigned LEB128
  (section 7.6 of DWARF version 4; also the 7-bit encoded int of .NET's
  `BinaryReader`).
- `read_int16` and `read_int32`: fixed-width two's-complement integers.
- `read_string`: a varint length followed by exactly that many raw octets.

The model replaces the file handle with an in-memory octet sequence `data`
and a cursor `pos`:

- `bytes.dfy` (module `Bytes`): the octet type, powers of two, and the
  little-endian two's-complement layout with its encoder. Both round trips
  are proved.
- `leb128.dfy` (module `Leb128`): the payload and continuation bits of an
  octet, and the value of a group sequence (`PayloadSum`, the sum of
  `(b_i & 0x7F) << 7*i`). It also holds the well-formedness predicate
  `IsVarint` and the canonical encoder `Encode`. Decoding inverts encoding,
  and encoding inverts decoding on canonical input.
- `binary_reader.dfy` (module `BinaryIO`): for each read, a function of
  `(data, pos)` that gives the result and the cursor afterwards
  (`VarintAt`, `Int16At`, `Int32At`, `StringAt`). Lemmas state what the
  reads promise. The class `BinaryReader` has a `const data` and a
  `var pos`. Its methods do the reads step by step, as io.py does, and are
  proved equal to those functions. `Read7BitEncodedInt32` is the `while`
  loop of io.py:13-18, with invariants that tie `integer` and `shift` to
  the octets consumed so far.

Modelling decisions:

- `data` is a `const`, so no read can change the underlying bytes. Every
  method modifies only `pos`.
- `fh.read(n)` returns up to `n` octets and moves the position past them
  (`BinaryReader.Read`, `Take`). A read that runs short therefore leaves
  the cursor at the end of the stream before `struct.unpack` rejects the
  buffer. The model does the same: every short read ends with
  `pos == |data|`.
- `read_string` returns the raw octets, as `struct`'s `'s'` format does; no
  text decoding happens.
- The failure `struct.unpack` raises on a short buffer is one error,
  `ShortRead(needed, got)`, returned as `Err`.
- `integer |= (current & 0x7F) << shift` is modelled as
  `integer + Shl(Payload(current), shift)`, where `Shl(x, n)` is `x * 2^n`.
  A loop invariant states `integer < Pow2(shift)`, so the two operands have
  no bits in common and the bitwise or equals the sum.
- The varint result is a `nat` with no 32-bit cap and no limit on the
  number of octets, as in the code. `VarintExceeds32Bits` shows that five
  octets already decode to 2^32, whatever the method's name suggests.
- The `'h'` and `'i'` formats of `struct` use the platform's native byte
  order and native sizes (C's `short` and `int`). The model fixes them to
  little-endian two's complement of 2 and 4 octets.

## Model

| member | source | states |
|---|---|---|
| `Bytes.LittleEndian` | io.py:21-25 | the unsigned value of n octets, least significant first, is below 2^(8n) |
| `Bytes.LittleEndianOfUnsignedBytes` | io.py:21-25 | reading back the little-endian octets of u gives u |
| `Bytes.UnsignedBytesOfLittleEndian` | io.py:21-25 | writing the value of any octet sequence gives that sequence back |
| `Bytes.Signed` | io.py:21-25 | the two's-complement value of n octets lies in [-2^(8n-1), 2^(8n-1)); it is the unsigned value when non-negative and the unsigned value minus 2^(8n) otherwise |
| `Bytes.SignedOfSignedBytes` | io.py:21-25 | decoding the two's-complement octets of any in-range v gives v |
| `Bytes.SignedBytesOfSigned` | io.py:21-25 | encoding the decoded value gives the same octets, so decoding is a bijection |
| `Leb128.Payload` | io.py:15 | the payload of an octet is below 128 |
| `Leb128.PayloadIsMask` | io.py:15 | the payload is the octet masked with 0x7F |
| `Leb128.HasMoreIsHighBit` | io.py:16 | an octet continues the varint exactly when its bit 0x80 is set |
| `Leb128.PayloadSum` | io.py:11-18 | the value of k groups, group i placed at bit 7*i, is below 2^(7k), so each new group lands on bits no earlier group uses |
| `Leb128.PayloadSumCons` | io.py:15-18 | an octet in front shifts the value of the octets after it up by one 7-bit group |
| `Leb128.Encode` | io.py:11-19 | the encoding of n is well formed (every octet but the last has the high bit set) and has no redundant trailing zero group |
| `Leb128.PayloadSumOfEncode` | io.py:11-19 | the groups of the encoding of n add up to n |
| `Leb128.EncodeOfPayloadSum` | io.py:11-19 | a canonical encoding is the encoding of its value, so canonical encodings and naturals correspond one to one |
| `BinaryIO.VarintEndSpec` | io.py:13-17 | the scan of `VarintEnd` ends just after the first octet with the high bit clear, and the octets it passes form a varint; it finds no end exactly when every remaining octet has the high bit set |
| `BinaryIO.VarintAt` | io.py:10-19 | the varint read moves the cursor forward and never past the end; on success the consumed octets form a varint (so the read stops at the first octet with the high bit clear) and the result, a natural number, is the sum of their groups; on failure every remaining octet had the high bit set and the cursor is at the end |
| `BinaryIO.FixedAt` | io.py:21-25 | a width-octet read succeeds exactly when width octets remain, then advances by width and returns their two's-complement value; otherwise it fails with the cursor at the end |
| `BinaryIO.Int16At` | io.py:21-22 | `read_int16` succeeds exactly when 2 octets remain, advances by exactly 2 and returns the two's-complement value of those 2 octets, in [-32768, 32767]; otherwise it fails with the cursor at the end of the stream |
| `BinaryIO.Int32At` | io.py:24-25 | `read_int32` succeeds exactly when 4 octets remain, advances by exactly 4 and returns the two's-complement value of those 4 octets, in [-2^31, 2^31-1]; otherwise it fails with the cursor at the end of the stream |
| `BinaryIO.StringAt` | io.py:30-32 | `read_string` succeeds exactly when the length prefix decodes and that many octets follow it; it then returns exactly those octets and leaves the cursor after them; on failure the cursor is at the end |
| `BinaryIO.VarintScanStep` | io.py:13-18 | one turn of the loop: the octet at the cursor adds its payload shifted by 7 per octet already read; a clear high bit ends the read with that sum, a set one leaves the outcome of the scan unchanged |
| `BinaryIO.VarintScanFails` | io.py:14 | when the loop reaches the end of the stream without finding the last octet, the read fails with the cursor at the end |
| `BinaryIO.VarintStopsAtFirstClearHighBit` | io.py:14-17 | if octets pos..pos+k-1 have the high bit set and octet pos+k has it clear, the varint read consumes exactly k+1 octets |
| `BinaryIO.VarintSingleOctet` | io.py:14-17 | an octet below 128 decodes to itself and advances the cursor by one |
| `BinaryIO.VarintTruncated` | io.py:14 | when the stream ends before an octet with the high bit clear, the read fails instead of returning a partial value |
| `BinaryIO.VarintRoundTrip` | io.py:11-19 | the encoding of n, anywhere in a stream, decodes to n and consumes exactly its own length |
| `BinaryIO.VarintExceeds32Bits` | io.py:10-19 | the five octets 80 80 80 80 10 decode to 2^32: the result is not limited to 32 bits |
| `BinaryIO.FixedRoundTrip` | io.py:21-25 | the two's-complement octets of v, anywhere in a stream, read back as v and consume exactly width octets |
| `BinaryIO.FixedReencodes` | io.py:21-25 | a successful fixed-width read determines the octets it consumed |
| `BinaryIO.Int16RoundTrip` | io.py:21-22 | any 16-bit value written little-endian reads back unchanged and consumes 2 octets |
| `BinaryIO.Int32RoundTrip` | io.py:24-25 | any 32-bit value written little-endian reads back unchanged and consumes 4 octets |
| `BinaryIO.StringRoundTrip` | io.py:30-32 | a string written as the encoding of its length and then its octets reads back whole and consumes exactly that |
| `BinaryIO.TakeThenTake` | io.py:14 | two consecutive `fh.read` calls return the octets one read of both counts returns: the second starts where the first stopped, skipping and repeating nothing |
| `BinaryIO.BinaryReader.constructor` | io.py:6-8 | a new reader stands at the first octet of the stream |
| `BinaryIO.BinaryReader.Read` | io.py:14 | `fh.read(n)` returns the octets `Take` names and advances the cursor by their number |
| `BinaryIO.BinaryReader.Read7BitEncodedInt32` | io.py:10-19 | the loop returns what `VarintAt` says and leaves the cursor where `VarintAt` says |
| `BinaryIO.BinaryReader.ReadInt16` | io.py:21-22 | returns what `Int16At` says and leaves the cursor where `Int16At` says |
| `BinaryIO.BinaryReader.ReadInt32` | io.py:24-25 | returns what `Int32At` says and leaves the cursor where `Int32At` says |
| `BinaryIO.BinaryReader.ReadString` | io.py:30-32 | returns what `StringAt` says and leaves the cursor where `StringAt` says |

## Left out

- Opening the file from a path and holding the handle (io.py:6-8): the constructor takes the file's contents as an octet sequence. The handle is never closed, so closing is not modelled either.
- `read_double` (io.py:27-28): IEEE-754 floating-point decoding is not modelled.
- The platform's native byte order and native sizes for `struct`'s `'h'` and `'i'` formats: the model fixes little-endian, 2 octets for `'h'` (C's `short`) and 4 octets for `'i'` (C's `int`).
- The exact exception `struct.unpack` raises on a short buffer: it is the single `ShortRead` error.
- The bitwise or of io.py:15 on unbounded integers: Dafny's `int` has no such operator, so the loop adds the shifted payload instead; the invariant `integer < Pow2(shift)` is what makes the two equal.
- BinaryIO.StringAt: when the length prefix decodes to a huge number (2^63 or more, or more octets than memory can hold), CPython's `fh.read(length)` raises `OverflowError` or `MemoryError` before reading anything, so the cursor stays just after the prefix; the model treats it like any other short read and moves the cursor to the end of the stream. Both report a failure; only the final cursor differs.
