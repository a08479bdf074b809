# nes_header_repair in Dafny

A model of Kitrinx's `nes_header_repair.py`. The script walks a directory of NES ROM dumps. It hashes each ROM's content with SHA-1, looks the digest up in the NES 2.0 XML database and rewrites the file's 16-byte header from the database record. The model covers three parts of the script:

- **Header synthesis** (`header.dfy`, module `HeaderSynth`). `make_rom_byte`, `make_rom_nibble`, `find_power_of_two` and `make_header` turn a database record into the 16 header bytes of the NES 2.0 format (iNES 1.0 when `nes2` is off).
  - PRG/CHR sizes are stored in linear form or in exponent-multiplier form.
  - The code also fills flags 6 and 7, the mapper/submapper byte and the RAM shift counts.
  - Bytes 12-15 hold the region, Vs./console, misc-ROM and expansion values.
- **Content extraction** (`container.dfy`, module `Container`). The reading half of `walk_dirs` over a cursor object (`RomFile`) whose `Read(n)` returns `min(n, remaining)` bytes. The first three bytes pick the path:
  - `NES`: an iNES file. Its first 16 bytes are the old header and the rest is content.
  - `UNI`: a UNIF file. A 32-byte preamble is followed by chunks: a 4-byte ID, a 4-byte little-endian length, then the payload. `PRG*` and `CHR*` payloads are kept and hashed in file order; other payloads are dropped.
  - Anything else: a header-less file, all of which is content.
- **Per-file decisions** (`repair.dfy`, module `Repair`).
  - The `.nes`/`.fds` name test.
  - The database lookup: rewrite, leave alone, or treat as unknown.
  - The `.unh` renaming of unknown UNIF and header-less files.
  - The FDS header strip.

`bits.dfy` (module `Bits`) holds the shared arithmetic: bytes, powers of two, `int(log(x, 2))` as an integer floor-log2, and Python's `|` on non-negative integers.

The script targets Python 2, so `/` is integer floor division. Where Python raises an exception, the model returns `None`:
- `log(0)` raises `ValueError` for a RAM size from 1 to 63.
- Storing a value of 256 or more into a `bytearray` raises `ValueError`.
- Indexing a buffer shorter than three bytes raises `IndexError`.

Where the NES 2.0 format allows more, the script does less, and the model follows the script:
- The battery flag is shifted into bit 1 of byte 6, not bit 0.
- The byte-9 size nibbles are only ever 0 or 0xF. The linear branch computes `(size / unit & 0xF00) >> 16`, which is always 0. The size byte keeps only the unit count mod 256 (`& 0xFF`), so k units are written as byte k mod 256 (`LinearWraps`). A 4 MiB PRG ROM under NES 2.0 (256 units) is written as byte 4 = 0 with a byte-9 nibble of 0: the header claims no PRG ROM (`FourMiBPrgWritesZero`). A linear size of 256 units or more is therefore not recoverable from bytes 4/5 and 9 (`PrgSizeReadBack`, `ChrSizeReadBack`).
- Mirroring depends only on the mirroring letter (`V` → 1, `4` → 8). There is no per-mapper table and no trainer bit.
- Byte 13 is the Vs. nibbles when console type is 1. Otherwise it is `consoleType & 0xF`.
- There is no header decoder and no truncation re-hash. The UNIF reader has no special cases for off-by-one or zero-length chunks. In a UNIF file, an empty first ID read after the 32-byte preamble raises `IndexError`, so a UNIF file of 32 bytes or fewer is refused. An empty length read raises `IndexError` too, and so does an ID read that returns one or two bytes. A 3-byte ID is accepted, and the empty length read after it raises. A file cut short inside a length field or inside a payload is read silently.

## Model

| member | source | states |
|---|---|---|
| Bits.FloorLog2 | nes_header_repair.py:49 | `int(log(x, 2))` for x ≥ 1: the e with 2^e ≤ x < 2^(e+1) |
| Bits.FloorLog2Unique | nes_header_repair.py:49 | the floor log2 is the only e with 2^e ≤ x < 2^(e+1) |
| Bits.BitOr | nes_header_repair.py:84-92 | `a \| b` on non-negative integers is at least each operand (its bits are given by BitOrBits) |
| Bits.BitOrBits | nes_header_repair.py:84 | `a \| b` sets bit k exactly when a or b has bit k set |
| HeaderSynth.Multiplier | nes_header_repair.py:41-47 | the multiplier divides the size and is 3 if 3 divides it, else 5, else 7, else 1 (each case an iff) |
| HeaderSynth.ExponentSizePositive | nes_header_repair.py:40-49 | in the exponent branch `romsize / multi` is at least 1, so the logarithm is defined |
| HeaderSynth.MakeRomByte | nes_header_repair.py:37-55 | the linear form is a byte; the exponent form is E·4 + (multi−1)/2 with E = floor(log2(size/multi)), the exponent above the two multiplier bits |
| HeaderSynth.MakeRomNibble | nes_header_repair.py:57-64 | the nibble is 0 or 0xF, and 0xF exactly when the size is over 64 MiB or not a multiple of the unit |
| HeaderSynth.FindPowerOfTwo | nes_header_repair.py:66-67 | the shift count is below 16, is 0 for size 0, and otherwise is floor(log2(size/64)) mod 16 |
| HeaderSynth.RamShiftWraps | nes_header_repair.py:66-67 | a size with 64·2^e ≤ size < 128·2^e gets the shift count e mod 16, for every e |
| HeaderSynth.RamShiftFourMiB | nes_header_repair.py:66-67 | 4 MiB (64·2^16) wraps round to shift count 0 |
| HeaderSynth.RamShiftMeaning | nes_header_repair.py:66-67 | for 64 ≤ size < 4 MiB (64·2^16) the shift s satisfies 64·2^s ≤ size < 128·2^s |
| HeaderSynth.Nes2Bytes | nes_header_repair.py:87-94 | the NES 2.0 bytes 8-15 are eight values |
| HeaderSynth.HeaderValues | nes_header_repair.py:77-94 | the header is sixteen values |
| HeaderSynth.MakeHeader | nes_header_repair.py:69-96 | a header exists exactly for encodable records; it is 16 bytes starting 4E 45 53 1A |
| HeaderSynth.MakeHeaderPadding | nes_header_repair.py:77-86 | with `nes2` off, bytes 8-15 of the header are zero |
| HeaderSynth.HeaderValuesShape | nes_header_repair.py:77-94 | the values open with 4E 45 53 1A and, with `nes2` off, end in eight zeros |
| HeaderSynth.RomByteFits | nes_header_repair.py:37-55 | the size byte fits in a byte when the exponent (if used) is below 64 |
| HeaderSynth.RomByteOverflows | nes_header_repair.py:82-83 | an exponent of 64 or more gives a size byte of 256 or more (the ValueError case) |
| HeaderSynth.MirrorNibble | nes_header_repair.py:71-75 | the mirroring nibble is 1 exactly for 'V', 8 exactly for '4', and 0 exactly for anything else |
| HeaderSynth.Flags6 | nes_header_repair.py:84 | byte 6 fits in a byte exactly when battery < 128 |
| HeaderSynth.Flags7 | nes_header_repair.py:85 | byte 7 always fits in a byte |
| HeaderSynth.MapperByte | nes_header_repair.py:87 | byte 8 fits in a byte; its low nibble is mapper bits 8-11 and its high nibble submapper & 0xF |
| HeaderSynth.VsOrConsole | nes_header_repair.py:92 | byte 13 fits in a byte; with console type 1 in byte 7 its nibbles are the Vs. hardware (high) and Vs. PPU (low), else it is consoleType & 0xF |
| HeaderSynth.Nes2BytesFit | nes_header_repair.py:87-94 | bytes 8-15 always fit in a byte once the RAM sizes are loggable |
| HeaderSynth.EncodableIffFits | nes_header_repair.py:77-94 | the encodable records are exactly those whose sixteen values are all below 256 |
| HeaderSynth.LinearSizeByte | nes_header_repair.py:52-53 | in linear form, byte × unit equals the size iff the size is a multiple of the unit below 256 units |
| HeaderSynth.LinearWraps | nes_header_repair.py:52-53 | in linear form, a size of k units is written as byte k mod 256 |
| HeaderSynth.FourMiBPrgWritesZero | nes_header_repair.py:52-62 | a 4 MiB PRG ROM under NES 2.0 gets size byte 0 and size nibble 0 |
| HeaderSynth.ExponentSizeByte | nes_header_repair.py:40-51 | in exponent form the byte holds E = floor(log2(size/multi)) and MM with 2·MM+1 = multi; 2^E·(2·MM+1) ≤ size < twice that, with equality iff size/multi is a power of two |
| HeaderSynth.ExponentBounds | nes_header_repair.py:40-51 | 2^e·m with e = floor(log2(size/m)) is at most the size and more than half of it, and equals it iff size/m is 2^e |
| HeaderSynth.Flags6Fields | nes_header_repair.py:71-84 | byte 6: bit 0 set iff mirroring 'V', bit 1 the battery, bit 2 clear, bit 3 set iff mirroring '4', high nibble the mapper's low nibble |
| HeaderSynth.Flags6MapperNibble | nes_header_repair.py:84 | for battery < 8 the high nibble of byte 6 is mapper & 0xF and the low nibble is battery << 1 \| mirroring |
| HeaderSynth.Flags7Fields | nes_header_repair.py:85 | byte 7: bits 0-1 are min(consoleType, 3), bit 2 clear, bit 3 set iff `nes2`, high nibble the mapper's bits 4-7 |
| HeaderSynth.MapperRecovered | nes_header_repair.py:84-87 | for mapper < 4096, `(h[6] >> 4) \| (h[7] & 0xF0) \| ((h[8] & 0xF) << 8)` is the mapper and `h[8] >> 4` is submapper & 0xF |
| HeaderSynth.SizeNibbleByteNibbles | nes_header_repair.py:88 | byte 9 packs the PRG nibble low and the CHR nibble high |
| HeaderSynth.SizeNibbles | nes_header_repair.py:88 | each nibble of byte 9 is 0xF exactly when its size uses exponent form, else 0 |
| HeaderSynth.PrgSizeReadBack | nes_header_repair.py:82-88 | the PRG size read back from bytes 4 and 9: exponent form brackets the size; linear form equals it iff it is a multiple of 16384 below 256 units |
| HeaderSynth.ChrSizeReadBack | nes_header_repair.py:83-88 | the same for CHR, bytes 5 and 9, unit 8192 |
| HeaderSynth.RamByteNibbles | nes_header_repair.py:89-90 | a RAM byte packs the volatile shift low and the battery-backed shift high |
| HeaderSynth.RamBytes | nes_header_repair.py:89-90 | bytes 10 and 11 hold the PRG and CHR RAM shift counts, volatile low, non-volatile high |
| HeaderSynth.TrailingBytes | nes_header_repair.py:91-94 | byte 12 is region & 3; byte 13 is the Vs. nibbles iff h[7] & 3 == 1 (iff console type 1), else consoleType & 0xF; byte 14 is miscrom & 3; byte 15 is expansion & 0x3F |
| HeaderSynth.PlainCartridgeHeader | nes_header_repair.py:69-96 | a 32 KiB PRG / 8 KiB CHR record gives 4E 45 53 1A 02 01 00 08 00 00 00 00 00 00 00 00 |
| Container.VersionSafeStr | nes_header_repair.py:164-165 | three characters, the code points of the first three bytes |
| Container.VersionSafeStrPrefix | nes_header_repair.py:164-165 | only the first three bytes decide the tag |
| Container.Reverse | nes_header_repair.py:169-170 | the reversed byte string |
| Container.FromBytes | nes_header_repair.py:167-175 | the loop's sum is the little-endian value of the (optionally reversed) bytes |
| Container.LittleEndianRoundTrip | nes_header_repair.py:172-175 | k little-endian bytes of n < 256^k read back as n |
| Container.LengthFieldRoundTrip | nes_header_repair.py:217-222 | a 4-byte length field written for a length below 2^32 is read back as that length |
| Container.RomFile.constructor | nes_header_repair.py:203 | a fresh cursor at position 0 over the file's bytes |
| Container.RomFile.Read | nes_header_repair.py:204 | `read(n)` returns the next min(n, remaining) bytes and advances the position by that much |
| Container.Collect | nes_header_repair.py:224-231 | collecting a payload only appends (Appends: old buffers stay in front, the hash grows by what PRG and CHR grow), and a chunk that is neither PRG nor CHR changes nothing |
| Container.ChunkWalk | nes_header_repair.py:216-234 | when the chunk loop finishes, its buffers extend the ones it started with, and the hash input grows exactly as the PRG and CHR buffers do |
| Container.NextChunk | nes_header_repair.py:232-234 | the same for the loop from the ID read on |
| Container.ChunkWalkStep | nes_header_repair.py:216-232 | over a complete length field, one pass of the chunk loop reads exactly the payload after it, collects it, and goes on to the ID read that follows |
| Container.ReadUnifChunks | nes_header_repair.py:213-234 | the chunk loop returns what the chunk walk specifies and leaves the cursor at the end of the file |
| Container.ReadRemainder | nes_header_repair.py:242-246 | the final 64 KiB read loop collects exactly the bytes from the cursor to the end of the file |
| Container.Extract | nes_header_repair.py:203-247 | a file under three bytes is refused (IndexError); otherwise the hash input is as long as the PRG and CHR content together, and an old header is kept exactly for iNES files |
| Container.ExtractContent | nes_header_repair.py:203-247 | the reading code's header, PRG, CHR and hash input equal the extraction specification, including its IndexError cases |
| Container.NonUnifContent | nes_header_repair.py:203-241 | iNES and header-less files: refused only under three bytes; header + content is the whole file; the hash covers the content |
| Container.ChunkWalkHashesCollected | nes_header_repair.py:216-234 | the chunk loop hashes exactly the PRG and CHR payloads it keeps |
| Container.HashCoversContent | nes_header_repair.py:203-246 | for every shape the hash input is the PRG and CHR content as a multiset, and exactly PRG then CHR outside UNIF |
| Container.CollectChunk | nes_header_repair.py:222-229 | a PRG chunk extends `prgrom` and the hash, a CHR chunk `chrrom` and the hash, any other chunk nothing |
| Container.ChunkReads | nes_header_repair.py:216-223 | a chunk written after some bytes is read back by the loop at that offset: its ID, its length field and exactly its payload |
| Container.StreamLaidOut | nes_header_repair.py:213-234 | a well-formed chunk stream written after a prefix is laid out chunk after chunk as the loop reads it, up to the end of the file |
| Container.WalkLaidOut | nes_header_repair.py:216-234 | walking chunks laid out that way collects their PRG payloads, their CHR payloads and both in file order |
| Container.UnifRoundTrip | nes_header_repair.py:213-234 | a 32-byte UNIF preamble plus a well-formed chunk stream (last payload possibly cut short) reads back as its PRG payloads, CHR payloads, and PRG/CHR payloads in file order as the hash input |
| Container.RomPayloadsInOrder | nes_header_repair.py:222-229 | with no CHR chunk before a PRG chunk, the hash input is the PRG content then the CHR content |
| Container.UnifTwoChunks | nes_header_repair.py:213-234 | a PRG0 chunk 1 2 3 4 and a CHR0 chunk 5 6 give content and hash input 1 2 3 4 5 6 |
| Repair.Lower | nes_header_repair.py:194 | `str.lower`: same length, each ASCII capital lowered |
| Repair.Upper | nes_header_repair.py:249 | `str.upper`: same length, each ASCII small letter raised |
| Repair.RFind | nes_header_repair.py:194 | `str.rfind`: an index where the substring occurs, and no occurrence above it, or -1 |
| Repair.HasExtension | nes_header_repair.py:194 | the name test holds iff the extension occurs, case-insensitively, at some index after the first |
| Repair.MarkUnheadered | nes_header_repair.py:271-276 | the new name ends in ".unh" (any case) and keeps the old name as a prefix; it is unchanged exactly when the old name already ended so, and otherwise is the old name + ".unh" |
| Repair.Decide | nes_header_repair.py:249-281 | a rewrite or no-change exactly when the key is in the database; no-change exactly when the file's header equals the database header; a rewrite only with the database header and a differing old header; an unknown UNIF or header-less file gets the MarkUnheadered name, an unknown iNES file keeps its name, and only an unknown UNIF file is rewritten, to its PRG content followed by its CHR content |
| Repair.ProcessNes | nes_header_repair.py:194-281 | a `.nes` file gets a decision exactly when it can be read (never under three bytes), and with a database of NES headers every header it writes is one |
| Repair.RewriteLayout | nes_header_repair.py:254-268 | a rewrite writes the PRG content then the CHR content; for iNES that is the file after its first 16 bytes, for header-less files the whole file; as a multiset it is the hash input |
| Repair.RewriteThenNoChange | nes_header_repair.py:249-268 | reading a rewritten file gives an iNES file with the database header and the same hash input, so the next run leaves it unchanged |
| Repair.NonUnifHashedAsWritten | nes_header_repair.py:203-246 | iNES and header-less files hash their content in the order a rewrite writes it |
| Repair.UnifHashedAsWritten | nes_header_repair.py:213-234 | so do UNIF files whose PRG chunks come before their CHR chunks |
| Repair.HeaderlessCartridgeGetsHeader | nes_header_repair.py:236-268 | a header-less 32 KiB/8 KiB cartridge in the database is rewritten as 4E 45 53 1A 02 01 00 08 00×8 followed by the whole original file |
| Repair.FdsStrip | nes_header_repair.py:286-300 | refused under three bytes; rewritten exactly when the tag is FDS or NES; the rewrite is the file minus its first min(16, length) bytes |
| Repair.StripFdsHeader | nes_header_repair.py:286-300 | the cursor-based FDS branch does what the FDS specification says |
| Repair.ProcessFile | nes_header_repair.py:194-300 | a file is ignored iff neither name test holds; the `.nes` test wins over `.fds` |
| Repair.MarkedNameStillExamined | nes_header_repair.py:271-276 | a `.nes` file renamed with ".unh" still passes the `.nes` name test |

## Left out

- XML loading (`populate_dict`, `nes_header_repair.py:98-161`) is not part of this model. The database is a map from upper-case digests to headers; `HeaderTable` says its values are NES headers, as `MakeHeader` guarantees.
- SHA-1 (`hashlib`) is a function parameter `digest` from the hashed bytes to the hex digest. Two different hash inputs are not assumed to give different digests.
- File system effects are not performed. The decision records them as an `Action`: opening and rewriting files, `os.walk`, `os.rename`, `mirror_paths` and the `../nes_unknown` sort directory. The `TRIAL_RUN`, `SORT_UNKNOWN` and `MARK_UNHEADERED` switches are taken as set to act. The move of unknown files into the sort directory is not modelled, only the `.unh` renaming. The progress messages are left out as well.
- Floating point: `log` is modelled as exact integer floor-log2. Rounding in `math.log` near exact powers of two is not captured.
- The Python 2/3 branches (`isinstance(..., str)`) collapse to one byte semantics. Python 3's `int.from_bytes(..., 'little')` and the script's `from_bytes` agree on the little-endian value.
- Decide: the bare `except` also catches errors raised while writing a file. Only its lookup-miss meaning is modelled.
- Lower, Upper: only ASCII letters change case; Unicode case mapping is not modelled.
- An `IndexError` on a short file stops the whole Python run. The model returns `None` for that file and says nothing about the files after it.
- Flags6Fields: requires battery ≤ 1. A larger battery value overlaps the mirroring and mapper bits under `|`, and the fields are then not separable. Flags6MapperNibble covers battery < 8 for the mapper nibble.
- MapperRecovered: requires battery < 8 and mapper < 4096. Beyond those, bits from `battery << 1` or a mapper above 4095 make byte 6 or byte 8 overflow or mix fields.
- RewriteThenNoChange: requires the hash input to be PRG content followed by CHR content (`HashedAsWritten`). A UNIF file with a CHR chunk before a PRG chunk is rewritten in a different byte order than it was hashed in, so the next run may not find it in the database.
