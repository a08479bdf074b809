/**
 * The NES 2.0 header synthesiser of nes_header_repair.py: a database record
 * becomes the sixteen bytes of an iNES / NES 2.0 header.
 *
 * Sizes are Python 2 integers, so `/` is floor division and
 * `int(log(x, 2))` is FloorLog2(x). A mask or shift by a constant is written
 * arithmetically (`x & 0xF0` is `x / 16 % 16 * 16`); `|` is Bits.BitOr,
 * because the battery field is not confined to one bit.
 */
module HeaderSynth {
  import opened Bits

  /** The fields of one `<game>` entry of the database, as make_header takes them. */
  datatype Record = Record(
    prgRom: nat, prgRam: nat, prgNvram: nat,
    chrRom: nat, chrRam: nat, chrNvram: nat,
    miscRom: nat,
    consoleType: nat, consoleRegion: nat, expansion: nat,
    vsHardware: nat, vsPpu: nat,
    mirroring: string,
    mapper: nat, subMapper: nat, battery: nat)

  /** 64 MiB, the largest size the linear form is used for. */
  const MaxLinearSize: nat := 64 * 1024 * 1024

  const PrgUnit: nat := 16384
  const ChrUnit: nat := 8192

  /** The test shared by make_rom_byte and make_rom_nibble. */
  predicate UsesExponent(romsize: nat, divis: nat)
    requires divis > 0
  {
    romsize > MaxLinearSize || romsize % divis != 0
  }

  /** The odd multiplier make_rom_byte picks: 3, else 5, else 7, else 1. */
  function Multiplier(romsize: nat): (multi: nat)
    ensures multi >= 1 && romsize % multi == 0
    ensures multi == 3 <==> romsize % 3 == 0
    ensures multi == 5 <==> romsize % 3 != 0 && romsize % 5 == 0
    ensures multi == 7 <==> romsize % 3 != 0 && romsize % 5 != 0 && romsize % 7 == 0
    ensures multi == 1 <==> romsize % 3 != 0 && romsize % 5 != 0 && romsize % 7 != 0
  {
    if romsize % 3 == 0 then 3
    else if romsize % 5 == 0 then 5
    else if romsize % 7 == 0 then 7
    else 1
  }

  /** Sizes that take the exponent form are positive, so the logarithm is defined. */
  lemma {:induction false} ExponentSizePositive(romsize: nat, divis: nat)
    requires divis > 0 && UsesExponent(romsize, divis)
    ensures romsize >= Multiplier(romsize) && romsize / Multiplier(romsize) >= 1
  {
  }

  /** The value NES 2.0 gives an exponent-multiplier size byte: 2^E * (2*MM + 1). */
  function ExponentValue(sizeByte: nat): nat
  {
    Pow2(sizeByte / 4) * (sizeByte % 4 * 2 + 1)
  }

  /**
   * PRG/CHR size byte (header bytes 4 and 5). In linear form it is a byte;
   * in exponent form the exponent sits above the two multiplier bits.
   */
  function MakeRomByte(romsize: nat, divis: nat, nes2: bool): (rombyte: nat)
    requires divis > 0
    ensures !(UsesExponent(romsize, divis) && nes2) ==> rombyte < 256
    ensures UsesExponent(romsize, divis) && nes2 ==>
              romsize / Multiplier(romsize) >= 1
              && rombyte == FloorLog2(romsize / Multiplier(romsize)) * 4 + (Multiplier(romsize) - 1) / 2
  {
    if UsesExponent(romsize, divis) && nes2 then
      ExponentSizePositive(romsize, divis);
      var multi := Multiplier(romsize);
      var exponent := FloorLog2(romsize / multi);
      assert Pow2(2) == 4;
      BitOrDisjoint((multi - 1) / 2, exponent, 2);
      BitOrCommutes(exponent * 4, (multi - 1) / 2);
      BitOr(exponent * 4, (multi - 1) / 2)
    else
      romsize / divis % 256
  }

  /** Size-MSB nibble of byte 9; `(x & 0xF00) >> 16` as the script writes it. */
  function MakeRomNibble(romsize: nat, divis: nat): (romnibble: nat)
    requires divis > 0
    ensures romnibble == 0 || romnibble == 0xF
    ensures romnibble == 0xF <==> UsesExponent(romsize, divis)
  {
    if UsesExponent(romsize, divis) then 0xF
    else (romsize / divis / 256 % 16 * 256) / 65536
  }

  /** find_power_of_two is only defined for 0 and for sizes of at least 64 (else log(0)). */
  predicate RamSizeLoggable(base10: nat)
  {
    base10 == 0 || base10 >= 64
  }

  /** RAM shift count: floor(log2(size / 64)) & 0xF, and 0 for no RAM. */
  function FindPowerOfTwo(base10: nat): (shift: nat)
    requires RamSizeLoggable(base10)
    ensures shift < 16
    ensures base10 == 0 ==> shift == 0
    ensures base10 > 0 ==> shift == FloorLog2(base10 / 64) % 16
  {
    if base10 > 0 then FloorLog2(base10 / 64) % 16 else 0
  }

  /**
   * The `& 0xF` keeps only the low four bits of the exponent: a RAM size
   * between 64 * 2^e and 128 * 2^e gets the shift count e mod 16, so from
   * 4 MiB up the count wraps round.
   */
  lemma {:induction false} RamShiftWraps(base10: nat, e: nat)
    requires 64 * Pow2(e) <= base10 < 128 * Pow2(e)
    ensures RamSizeLoggable(base10) && FindPowerOfTwo(base10) == e % 16
  {
    var q := base10 / 64;
    assert Pow2(e) <= q;
    assert q < 2 * Pow2(e);
    FloorLog2Unique(q, e);
  }

  /** 4 MiB of RAM is 64 << 16 bytes, and the script stores shift count 0 for it. */
  lemma {:induction false} RamShiftFourMiB()
    ensures FindPowerOfTwo(0x40_0000) == 0
  {
    assert Pow2(8) == 256;
    Pow2Add(8, 8);
    RamShiftWraps(0x40_0000, 16);
  }

  /**
   * NES 2.0 reads a shift count s as 64 << s bytes: below 4 MiB the count
   * names the largest such size not above the RAM size, so powers of two
   * round-trip exactly.
   */
  lemma {:induction false} RamShiftMeaning(base10: nat)
    requires 64 <= base10 < 0x40_0000
    ensures 64 * Pow2(FindPowerOfTwo(base10)) <= base10 < 128 * Pow2(FindPowerOfTwo(base10))
  {
    var q := base10 / 64;
    var e := FloorLog2(q);
    assert FloorLog2(q) < 16 by {
      FloorLog2Below16(q);
    }
    assert FindPowerOfTwo(base10) == e;
    assert Pow2(e + 1) == 2 * Pow2(e);
  }

  /** A positive number below 2^16 has a floor log2 below 16. */
  lemma {:induction false} FloorLog2Below16(x: nat)
    requires 1 <= x < 0x1_0000
    ensures FloorLog2(x) < 16
  {
    FloorLog2Below(x, 16);
    assert Pow2(8) == 256;
    Pow2Add(8, 8);
  }

  /** Mirroring nibble of byte 6: 'V' sets bit 0, '4' sets bit 3, anything else none. */
  function MirrorNibble(pcbMirroring: string): (nibble: nat)
    ensures nibble == 1 <==> pcbMirroring == "V"
    ensures nibble == 8 <==> pcbMirroring == "4"
    ensures nibble == 0 <==> pcbMirroring != "V" && pcbMirroring != "4"
  {
    if pcbMirroring == "V" then 0x1
    else if pcbMirroring == "4" then 0x8
    else 0
  }

  predicate RamLoggable(rec: Record)
  {
    RamSizeLoggable(rec.prgRam) && RamSizeLoggable(rec.prgNvram)
    && RamSizeLoggable(rec.chrRam) && RamSizeLoggable(rec.chrNvram)
  }

  /** Byte 6: battery at bit 1, the mirroring nibble, mapper bits 0-3 in the high nibble. */
  function Flags6(rec: Record): (flags: nat)
    ensures flags < 256 <==> rec.battery < 128
  {
    var low := BitOr(rec.battery * 2, MirrorNibble(rec.mirroring));
    assert Pow2(8) == 256;
    if rec.battery < 128 then
      BitOrBound(rec.battery * 2, MirrorNibble(rec.mirroring), 8);
      BitOrBound(low, rec.mapper % 16 * 16, 8);
      BitOr(low, rec.mapper % 16 * 16)
    else
      BitOr(low, rec.mapper % 16 * 16)
  }

  /** Console type as byte 7 carries it: 3 stands for every type from 3 up. */
  function ConsoleField(consoleType: nat): nat
  {
    if consoleType >= 3 then 3 else consoleType
  }

  /** Byte 7: the NES 2.0 identifier bit, the console type, mapper bits 4-7. */
  function Flags7(rec: Record, nes2: bool): (flags: nat)
    ensures flags < 256
  {
    var n8 := if nes2 then 0x8 else 0;
    assert Pow2(8) == 256;
    BitOrBound(n8, ConsoleField(rec.consoleType), 8);
    BitOrBound(BitOr(n8, ConsoleField(rec.consoleType)), rec.mapper / 16 % 16 * 16, 8);
    BitOr(BitOr(n8, ConsoleField(rec.consoleType)), rec.mapper / 16 % 16 * 16)
  }

  /** Byte 13: Vs. hardware and PPU when byte 7 says Vs. System, else the console type. */
  function VsOrConsole(rec: Record, flags7: nat): (b: nat)
    ensures b < 256
    ensures flags7 % 4 == 1 ==> b / 16 == rec.vsHardware % 16 && b % 16 == rec.vsPpu % 16
    ensures flags7 % 4 != 1 ==> b == rec.consoleType % 16
  {
    if flags7 % 4 == 1 then
      NibblePair(rec.vsPpu % 16, rec.vsHardware % 16);
      BitOr(rec.vsHardware % 16 * 16, rec.vsPpu % 16)
    else rec.consoleType % 16
  }

  /** Byte 8: mapper bits 8-11 in the low nibble, submapper in the high one. */
  function MapperByte(mapper: nat, subMapper: nat): (b: nat)
    ensures b < 256
    ensures b % 16 == mapper / 256 % 16 && b / 16 == subMapper % 16
  {
    NibblePair(mapper / 256 % 16, subMapper % 16);
    BitOr(mapper / 256 % 16, subMapper % 16 * 16)
  }

  /** Byte 9: PRG size nibble low, CHR size nibble high. */
  function SizeNibbleByte(prgRom: nat, chrRom: nat): nat
  {
    BitOr(MakeRomNibble(prgRom, PrgUnit), MakeRomNibble(chrRom, ChrUnit) * 16)
  }

  /** Bytes 10 and 11: volatile RAM shift in the low nibble, battery-backed in the high one. */
  function RamByte(ram: nat, nvram: nat): nat
    requires RamSizeLoggable(ram) && RamSizeLoggable(nvram)
  {
    BitOr(FindPowerOfTwo(ram), FindPowerOfTwo(nvram) * 16)
  }

  /** Bytes 8-15, which make_header fills only for NES 2.0. */
  function Nes2Bytes(rec: Record): (t: seq<nat>)
    requires RamLoggable(rec)
    ensures |t| == 8
  {
    [ MapperByte(rec.mapper, rec.subMapper),
      SizeNibbleByte(rec.prgRom, rec.chrRom),
      RamByte(rec.prgRam, rec.prgNvram),
      RamByte(rec.chrRam, rec.chrNvram),
      rec.consoleRegion % 4,
      VsOrConsole(rec, Flags7(rec, true)),
      rec.miscRom % 4,
      rec.expansion % 64 ]
  }

  /**
   * The sixteen integers make_header stores into its bytearray, before
   * the bytearray checks that each one is below 256.
   */
  function HeaderValues(rec: Record, nes2: bool): (h: seq<nat>)
    requires nes2 ==> RamLoggable(rec)
    ensures |h| == 16
  {
    [0x4E, 0x45, 0x53, 0x1A,
     MakeRomByte(rec.prgRom, PrgUnit, nes2), MakeRomByte(rec.chrRom, ChrUnit, nes2),
     Flags6(rec), Flags7(rec, nes2)]
    + (if nes2 then Nes2Bytes(rec) else [0, 0, 0, 0, 0, 0, 0, 0])
  }

  /** The exponent form of a size, if used, fits in six bits. */
  predicate ExponentFits(romsize: nat, divis: nat)
    requires divis > 0
  {
    UsesExponent(romsize, divis) ==> romsize / Multiplier(romsize) >= 1 && FloorLog2(romsize / Multiplier(romsize)) < 64
  }

  /** The records make_header turns into a header without raising ValueError. */
  predicate Encodable(rec: Record, nes2: bool)
  {
    && rec.battery < 128
    && (nes2 ==> RamLoggable(rec) && ExponentFits(rec.prgRom, PrgUnit) && ExponentFits(rec.chrRom, ChrUnit))
  }

  /** True for the sixteen-byte headers the script writes: magic "NES\x1A" first. */
  predicate IsNesHeader(h: seq<byte>)
  {
    |h| == 16 && h[..4] == [0x4E, 0x45, 0x53, 0x1A]
  }

  /**
   * make_header: the header, or None where Python raises ValueError (a RAM
   * size between 1 and 63 reaches log(0); a value of 256 or more is stored
   * into the bytearray).
   */
  function MakeHeader(rec: Record, nes2: bool): (r: Option<seq<byte>>)
    ensures r.Some? <==> Encodable(rec, nes2)
    ensures r.Some? ==> IsNesHeader(r.value)
  {
    if nes2 && !RamLoggable(rec) then None
    else
      var h := HeaderValues(rec, nes2);
      if forall i | 0 <= i < 16 :: h[i] < 256 then
        EncodableIffFits(rec, nes2);
        HeaderValuesShape(rec, nes2);
        Some(seq(16, i requires 0 <= i < 16 => h[i] as byte))
      else
        EncodableIffFits(rec, nes2);
        None
  }

  /** With `nes2` off, make_header leaves bytes 8-15 zero. */
  lemma {:induction false} MakeHeaderPadding(rec: Record, h: seq<byte>)
    requires MakeHeader(rec, false) == Some(h)
    ensures forall i | 8 <= i < 16 :: h[i] == 0
  {
    HeaderValuesShape(rec, false);
  }

  /** The magic number opens every header; an iNES 1.0 header ends in eight zeros. */
  lemma {:induction false} HeaderValuesShape(rec: Record, nes2: bool)
    requires nes2 ==> RamLoggable(rec)
    ensures var h := HeaderValues(rec, nes2);
      && h[0] == 0x4E && h[1] == 0x45 && h[2] == 0x53 && h[3] == 0x1A
      && (!nes2 ==> forall i | 8 <= i < 16 :: h[i] == 0)
  {
  }

  lemma {:induction false} RomByteFits(romsize: nat, divis: nat, nes2: bool)
    requires divis > 0
    requires !(UsesExponent(romsize, divis) && nes2) || ExponentFits(romsize, divis)
    ensures MakeRomByte(romsize, divis, nes2) < 256
  {
  }

  lemma {:induction false} RomByteOverflows(romsize: nat, divis: nat)
    requires divis > 0 && UsesExponent(romsize, divis) && !ExponentFits(romsize, divis)
    ensures MakeRomByte(romsize, divis, true) >= 256
  {
    ExponentSizePositive(romsize, divis);
  }

  lemma {:induction false} Nes2BytesFit(rec: Record)
    requires RamLoggable(rec)
    ensures forall i | 0 <= i < 8 :: Nes2Bytes(rec)[i] < 256
  {
    assert Pow2(8) == 256;
    SizeNibbleByteNibbles(rec.prgRom, rec.chrRom);
    RamByteNibbles(rec.prgRam, rec.prgNvram);
    RamByteNibbles(rec.chrRam, rec.chrNvram);
  }

  lemma {:induction false} EncodableIffFits(rec: Record, nes2: bool)
    requires nes2 ==> RamLoggable(rec)
    ensures Encodable(rec, nes2) <==> forall i | 0 <= i < 16 :: HeaderValues(rec, nes2)[i] < 256
  {
    var h := HeaderValues(rec, nes2);
    if nes2 {
      Nes2BytesFit(rec);
      assert forall i | 8 <= i < 16 :: h[i] == Nes2Bytes(rec)[i - 8];
      if ExponentFits(rec.prgRom, PrgUnit) {
        RomByteFits(rec.prgRom, PrgUnit, true);
      } else {
        RomByteOverflows(rec.prgRom, PrgUnit);
      }
      if ExponentFits(rec.chrRom, ChrUnit) {
        RomByteFits(rec.chrRom, ChrUnit, true);
      } else {
        RomByteOverflows(rec.chrRom, ChrUnit);
      }
    } else {
      RomByteFits(rec.prgRom, PrgUnit, false);
      RomByteFits(rec.chrRom, ChrUnit, false);
    }
    assert h[4] == MakeRomByte(rec.prgRom, PrgUnit, nes2);
    assert h[5] == MakeRomByte(rec.chrRom, ChrUnit, nes2);
    assert h[6] == Flags6(rec);
  }

  /** NES 2.0 reads a linear size as ((nibble << 8) | byte) * unit. */
  function LinearValue(sizeByte: nat, nibble: nat, unit: nat): nat
  {
    (nibble * 256 + sizeByte) * unit
  }

  /**
   * Linear form: the size byte keeps the unit count modulo 256, so it reads
   * back as the size exactly when the size is a whole number of units below
   * 256 units.
   */
  lemma {:induction false} LinearSizeByte(romsize: nat, divis: nat, nes2: bool)
    requires divis > 0 && !(UsesExponent(romsize, divis) && nes2)
    ensures MakeRomByte(romsize, divis, nes2) < 256
    ensures MakeRomByte(romsize, divis, nes2) * divis == romsize <==> romsize % divis == 0 && romsize / divis < 256
  {
    var b := MakeRomByte(romsize, divis, nes2);
    var q := romsize / divis;
    assert b == q % 256;
    if b * divis == romsize {
      assert romsize % divis == 0 by {
        assert (b * divis) % divis == 0;
      }
      assert q == b by {
        assert (b * divis) / divis == b;
      }
    }
    if romsize % divis == 0 && q < 256 {
      assert romsize == q * divis;
    }
  }

  /** Linear form keeps only the low eight bits of the unit count: k units give byte k mod 256. */
  lemma {:induction false} LinearWraps(k: nat, divis: nat, nes2: bool)
    requires divis > 0 && !(UsesExponent(k * divis, divis) && nes2)
    ensures MakeRomByte(k * divis, divis, nes2) == k % 256
  {
    DivModUnique(k * divis, divis, k, 0);
  }

  /**
   * A 4 MiB PRG ROM is 256 units in linear form: byte 4 wraps to 0 and the
   * byte-9 nibble is 0 too, so the header records no PRG ROM at all.
   */
  lemma {:induction false} FourMiBPrgWritesZero()
    ensures MakeRomByte(0x40_0000, PrgUnit, true) == 0 && MakeRomNibble(0x40_0000, PrgUnit) == 0
  {
    assert 256 * PrgUnit == 0x40_0000;
    assert !UsesExponent(256 * PrgUnit, PrgUnit);
    LinearWraps(256, PrgUnit, true);
  }

  /**
   * Exponent form: byte E << 2 | MM with E = floor(log2(size / multi)) and
   * 2 * MM + 1 the multiplier; the value it stands for never exceeds the
   * size, is more than half of it, and equals it exactly when size / multi
   * is a power of two.
   */
  lemma {:induction false} ExponentSizeByte(romsize: nat, divis: nat)
    requires divis > 0 && UsesExponent(romsize, divis) && ExponentFits(romsize, divis)
    ensures var b := MakeRomByte(romsize, divis, true);
      && b < 256
      && b / 4 == FloorLog2(romsize / Multiplier(romsize))
      && b % 4 * 2 + 1 == Multiplier(romsize)
      && ExponentValue(b) <= romsize < 2 * ExponentValue(b)
      && (ExponentValue(b) == romsize <==> romsize / Multiplier(romsize) == Pow2(b / 4))
  {
    var b := MakeRomByte(romsize, divis, true);
    var m := Multiplier(romsize);
    var e := FloorLog2(romsize / m);
    RomByteFits(romsize, divis, true);
    assert b == e * 4 + (m - 1) / 2;
    assert b / 4 == e && b % 4 * 2 + 1 == m;
    assert ExponentValue(b) == Pow2(e) * m;
    ExponentBounds(romsize, m, e);
  }

  /** 2^e * m for e = floor(log2(size / m)) lies in (size / 2, size], and is size iff size / m is 2^e. */
  lemma {:induction false} ExponentBounds(romsize: nat, m: nat, e: nat)
    requires m >= 1 && romsize % m == 0 && romsize / m >= 1 && e == FloorLog2(romsize / m)
    ensures Pow2(e) * m <= romsize < 2 * (Pow2(e) * m)
    ensures Pow2(e) * m == romsize <==> romsize / m == Pow2(e)
  {
    var q := romsize / m;
    var p := Pow2(e);
    assert romsize == q * m by {
      DivExact(romsize, m);
    }
    assert p <= q < 2 * p;
    MulMonotone(p, q, m);
    MulStrict(q, 2 * p, m);
    assert 2 * p * m == 2 * (p * m);
    if p * m == q * m {
      MulCancel(p, q, m);
    }
  }

  lemma {:induction false} DivExact(a: nat, d: nat)
    requires d > 0 && a % d == 0
    ensures a == a / d * d
  {
  }

  lemma {:induction false} MulStrict(a: nat, b: nat, c: nat)
    requires a < b && c > 0
    ensures a * c < b * c
  {
  }

  lemma {:induction false} MulMonotone(a: nat, b: nat, c: nat)
    requires a <= b
    ensures a * c <= b * c
  {
  }

  lemma {:induction false} MulCancel(a: nat, b: nat, c: nat)
    requires c > 0 && a * c == b * c
    ensures a == b
  {
  }

  /**
   * Byte 6 read back bit by bit, for the battery values the database holds:
   * bit 0 vertical mirroring, bit 1 battery, bit 2 (trainer) clear, bit 3
   * four-screen, bits 4-7 the low mapper nibble.
   */
  lemma {:induction false} Flags6Fields(rec: Record)
    requires rec.battery <= 1
    ensures var b := Flags6(rec);
      && b % 2 == (if rec.mirroring == "V" then 1 else 0)
      && b / 2 % 2 == rec.battery
      && b / 4 % 2 == 0
      && b / 8 % 2 == (if rec.mirroring == "4" then 1 else 0)
      && b / 16 == rec.mapper % 16
  {
    var mirror := MirrorNibble(rec.mirroring);
    var low := BitOr(rec.battery * 2, mirror);
    if mirror == 1 {
      assert Pow2(1) == 2;
      BitOrDisjoint(1, rec.battery, 1);
      BitOrCommutes(1, rec.battery * 2);
    } else if mirror == 8 {
      assert Pow2(3) == 8;
      BitOrDisjoint(rec.battery * 2, 1, 3);
    }
    assert low == rec.battery * 2 + mirror;
    NibblePair(low, rec.mapper % 16);
    LowNibbleBits(Flags6(rec), rec.battery, mirror, rec.mapper % 16);
  }

  lemma {:induction false} LowNibbleBits(b: nat, battery: nat, mirror: nat, hi: nat)
    requires battery <= 1 && (mirror == 0 || mirror == 1 || mirror == 8)
    requires b == battery * 2 + mirror + hi * 16
    ensures && b % 2 == (if mirror == 1 then 1 else 0)
      && b / 2 % 2 == battery
      && b / 4 % 2 == 0
      && b / 8 % 2 == (if mirror == 8 then 1 else 0)
      && b / 16 == hi
  {
    var low := battery * 2 + mirror;
    var m1 := if mirror == 1 then 1 else 0;
    var m8 := if mirror == 8 then 1 else 0;
    assert low == m1 + battery * 2 + m8 * 8;
    DivModUnique(b, 2, battery + m8 * 4 + hi * 8, m1);
    DivModUnique(b / 2, 2, m8 * 2 + hi * 4, battery);
    DivModUnique(b, 4, m8 * 2 + hi * 4, m1 + battery * 2);
    DivModUnique(b / 4, 2, m8 + hi * 2, 0);
    DivModUnique(b, 8, m8 + hi * 2, m1 + battery * 2);
    DivModUnique(b / 8, 2, hi, m8);
    DivModUnique(b, 16, hi, low);
  }

  /** Any battery value below 8 leaves the high nibble of byte 6 to the mapper. */
  lemma {:induction false} Flags6MapperNibble(rec: Record)
    requires rec.battery < 8
    ensures Flags6(rec) / 16 == rec.mapper % 16 && Flags6(rec) % 16 == BitOr(rec.battery * 2, MirrorNibble(rec.mirroring))
  {
    assert Pow2(4) == 16;
    var low := BitOr(rec.battery * 2, MirrorNibble(rec.mirroring));
    BitOrBound(rec.battery * 2, MirrorNibble(rec.mirroring), 4);
    NibblePair(low, rec.mapper % 16);
  }

  /**
   * Byte 7 read back: bits 0-1 are min(consoleType, 3), bit 2 is clear,
   * bit 3 is set exactly for NES 2.0, bits 4-7 are mapper bits 4-7.
   */
  lemma {:induction false} Flags7Fields(rec: Record, nes2: bool)
    ensures var b := Flags7(rec, nes2);
      && b % 4 == ConsoleField(rec.consoleType)
      && b % 4 == (if rec.consoleType < 3 then rec.consoleType else 3)
      && b / 4 % 2 == 0
      && (b / 8 % 2 == 1 <==> nes2)
      && b / 16 == rec.mapper / 16 % 16
  {
    var ct3 := ConsoleField(rec.consoleType);
    var c := if nes2 then 1 else 0;
    assert Pow2(3) == 8;
    BitOrDisjoint(ct3, c, 3);
    BitOrCommutes(ct3, c * 8);
    var low := BitOr(if nes2 then 0x8 else 0, ct3);
    assert low == ct3 + c * 8;
    NibblePair(low, rec.mapper / 16 % 16);
    ConsoleNibbleBits(ct3, c, rec.mapper / 16 % 16);
  }

  lemma {:induction false} ConsoleNibbleBits(ct3: nat, c: nat, hi: nat)
    requires ct3 <= 3 && c <= 1
    ensures var b := ct3 + c * 8 + hi * 16;
      && b % 4 == ct3
      && b / 4 % 2 == 0
      && b / 8 % 2 == c
      && b / 16 == hi
  {
    var b := ct3 + c * 8 + hi * 16;
    DivModUnique(b, 4, c * 2 + hi * 4, ct3);
    DivModUnique(b / 4, 2, c + hi * 2, 0);
    DivModUnique(b, 8, c + hi * 2, ct3);
    DivModUnique(b / 8, 2, hi, c);
    DivModUnique(b, 16, hi, ct3 + c * 8);
  }

  /**
   * With NES 2.0 on, a mapper below 4096 comes back as
   * (h[6] >> 4) | (h[7] & 0xF0) | ((h[8] & 0xF) << 8), and the submapper
   * as h[8] >> 4.
   */
  lemma {:induction false} MapperRecovered(rec: Record, h: seq<byte>)
    requires MakeHeader(rec, true) == Some(h)
    requires rec.battery < 8 && rec.mapper < 4096
    ensures BitOr(BitOr(h[6] / 16, h[7] / 16 % 16 * 16), h[8] as int % 16 * 256) == rec.mapper
    ensures h[8] / 16 == rec.subMapper % 16
  {
    var m := rec.mapper;
    assert h[6] / 16 == m % 16 && h[7] / 16 == m / 16 % 16 && h[8] == MapperByte(m, rec.subMapper) by {
      StoredBytes(rec, true, h);
      assert h[8] == Nes2Bytes(rec)[0];
      Flags6MapperNibble(rec);
      Flags7Fields(rec, true);
    }
    MapperFromNibbles(m, h[6], h[7], h[8]);
  }

  lemma {:induction false} MapperFromNibbles(m: nat, h6: nat, h7: nat, h8: nat)
    requires m < 4096 && h6 / 16 == m % 16 && h7 / 16 == m / 16 % 16 && h8 % 16 == m / 256 % 16
    ensures BitOr(BitOr(h6 / 16, h7 / 16 % 16 * 16), h8 % 16 * 256) == m
  {
    var y := h7 / 16;
    assert y % 16 == y;
    MapperJoin(m);
  }

  /** ORing the three mapper nibbles back into place rebuilds a 12-bit mapper number. */
  lemma {:induction false} MapperJoin(m: nat)
    requires m < 4096
    ensures BitOr(BitOr(m % 16, m / 16 % 16 * 16), m / 256 % 16 * 256) == m
  {
    NibblePair(m % 16, m / 16 % 16);
    var low := m % 16 + m / 16 % 16 * 16;
    assert Pow2(8) == 256;
    BitOrDisjoint(low, m / 256 % 16, 8);
    MapperNibbles(m);
  }

  lemma {:induction false} MapperNibbles(m: nat)
    requires m < 4096
    ensures m % 16 + m / 16 % 16 * 16 + m / 256 % 16 * 256 == m
  {
    assert m == m / 16 * 16 + m % 16;
    assert m / 16 == m / 256 * 16 + m / 16 % 16;
  }

  /** The bytes of a header make_header returns are the values it computed. */
  lemma {:induction false} StoredBytes(rec: Record, nes2: bool, h: seq<byte>)
    requires MakeHeader(rec, nes2) == Some(h)
    ensures nes2 ==> RamLoggable(rec)
    ensures |h| == 16
    ensures h[4] == MakeRomByte(rec.prgRom, PrgUnit, nes2) && h[5] == MakeRomByte(rec.chrRom, ChrUnit, nes2)
    ensures h[6] == Flags6(rec) && h[7] == Flags7(rec, nes2)
    ensures nes2 ==> forall i | 8 <= i < 16 :: h[i] == Nes2Bytes(rec)[i - 8]
  {
    var v := HeaderValues(rec, nes2);
    assert forall i | 0 <= i < 16 :: h[i] == v[i];
  }

  /**
   * Byte 9 under NES 2.0: the PRG nibble in the low half and the CHR nibble
   * in the high half, each 0xF exactly when its size byte took the exponent
   * form and 0 otherwise.
   */
  lemma {:induction false} SizeNibbles(rec: Record, h: seq<byte>)
    requires MakeHeader(rec, true) == Some(h)
    ensures h[9] % 16 == (if UsesExponent(rec.prgRom, PrgUnit) then 0xF else 0)
    ensures h[9] / 16 == (if UsesExponent(rec.chrRom, ChrUnit) then 0xF else 0)
  {
    StoredBytes(rec, true, h);
    assert h[9] == SizeNibbleByte(rec.prgRom, rec.chrRom) by {
      assert h[9] == Nes2Bytes(rec)[1];
    }
    SizeNibbleByteNibbles(rec.prgRom, rec.chrRom);
  }

  lemma {:induction false} SizeNibbleByteNibbles(prgRom: nat, chrRom: nat)
    ensures SizeNibbleByte(prgRom, chrRom) < 256
    ensures SizeNibbleByte(prgRom, chrRom) % 16 == MakeRomNibble(prgRom, PrgUnit)
    ensures SizeNibbleByte(prgRom, chrRom) / 16 == MakeRomNibble(chrRom, ChrUnit)
  {
    NibblePair(MakeRomNibble(prgRom, PrgUnit), MakeRomNibble(chrRom, ChrUnit));
  }

  /**
   * Bytes 4, 5 and 9 together: a size in linear form reads back exactly
   * when it is a whole number of units below 256 units (the byte-9 nibble is
   * always 0 there, so nothing above 8 bits survives); one in exponent form
   * reads back within the precision of 2^E * multiplier.
   */
  lemma {:induction false} PrgSizeReadBack(rec: Record, nes2: bool, h: seq<byte>)
    requires MakeHeader(rec, nes2) == Some(h)
    ensures var nibble := if nes2 then h[9] % 16 else 0;
      && (nes2 && UsesExponent(rec.prgRom, PrgUnit) ==> nibble == 0xF && ExponentValue(h[4]) <= rec.prgRom < 2 * ExponentValue(h[4]))
      && (!(nes2 && UsesExponent(rec.prgRom, PrgUnit)) ==>
            (LinearValue(h[4], nibble, PrgUnit) == rec.prgRom <==> rec.prgRom % PrgUnit == 0 && rec.prgRom < 256 * PrgUnit))
  {
    assert h[4] == MakeRomByte(rec.prgRom, PrgUnit, nes2);
    if nes2 {
      SizeNibbles(rec, h);
    }
    if nes2 && UsesExponent(rec.prgRom, PrgUnit) {
      ExponentSizeByte(rec.prgRom, PrgUnit);
    } else {
      LinearSizeByte(rec.prgRom, PrgUnit, nes2);
    }
  }

  /** The CHR counterpart of PrgSizeReadBack, for bytes 5 and 9. */
  lemma {:induction false} ChrSizeReadBack(rec: Record, nes2: bool, h: seq<byte>)
    requires MakeHeader(rec, nes2) == Some(h)
    ensures var nibble := if nes2 then h[9] / 16 else 0;
      && (nes2 && UsesExponent(rec.chrRom, ChrUnit) ==> nibble == 0xF && ExponentValue(h[5]) <= rec.chrRom < 2 * ExponentValue(h[5]))
      && (!(nes2 && UsesExponent(rec.chrRom, ChrUnit)) ==>
            (LinearValue(h[5], nibble, ChrUnit) == rec.chrRom <==> rec.chrRom % ChrUnit == 0 && rec.chrRom < 256 * ChrUnit))
  {
    assert h[5] == MakeRomByte(rec.chrRom, ChrUnit, nes2);
    if nes2 {
      SizeNibbles(rec, h);
    }
    if nes2 && UsesExponent(rec.chrRom, ChrUnit) {
      ExponentSizeByte(rec.chrRom, ChrUnit);
    } else {
      LinearSizeByte(rec.chrRom, ChrUnit, nes2);
    }
  }

  /**
   * Bytes 10 and 11: each nibble is the RAM shift count of its size (low:
   * volatile, high: battery-backed), 0 when there is none.
   */
  lemma {:induction false} RamBytes(rec: Record, h: seq<byte>)
    requires MakeHeader(rec, true) == Some(h)
    ensures h[10] % 16 == FindPowerOfTwo(rec.prgRam) && h[10] / 16 == FindPowerOfTwo(rec.prgNvram)
    ensures h[11] % 16 == FindPowerOfTwo(rec.chrRam) && h[11] / 16 == FindPowerOfTwo(rec.chrNvram)
  {
    StoredBytes(rec, true, h);
    assert h[10] == RamByte(rec.prgRam, rec.prgNvram) && h[11] == RamByte(rec.chrRam, rec.chrNvram) by {
      assert h[10] == Nes2Bytes(rec)[2] && h[11] == Nes2Bytes(rec)[3];
    }
    RamByteNibbles(rec.prgRam, rec.prgNvram);
    RamByteNibbles(rec.chrRam, rec.chrNvram);
  }

  lemma {:induction false} RamByteNibbles(ram: nat, nvram: nat)
    requires RamSizeLoggable(ram) && RamSizeLoggable(nvram)
    ensures RamByte(ram, nvram) < 256
    ensures RamByte(ram, nvram) % 16 == FindPowerOfTwo(ram) && RamByte(ram, nvram) / 16 == FindPowerOfTwo(nvram)
  {
    NibblePair(FindPowerOfTwo(ram), FindPowerOfTwo(nvram));
  }

  /**
   * Bytes 12-15: region in 2 bits, byte 13 holds Vs. hardware/PPU exactly
   * when byte 7 says Vs. System (console type 1) and the console type's low
   * nibble otherwise, misc-ROM count in 2 bits, expansion device in 6 bits.
   */
  lemma {:induction false} TrailingBytes(rec: Record, h: seq<byte>)
    requires MakeHeader(rec, true) == Some(h)
    ensures h[12] < 4 && h[12] == rec.consoleRegion % 4
    ensures h[7] % 4 == 1 <==> rec.consoleType == 1
    ensures h[7] % 4 == 1 ==> h[13] / 16 == rec.vsHardware % 16 && h[13] % 16 == rec.vsPpu % 16
    ensures h[7] % 4 != 1 ==> h[13] == rec.consoleType % 16
    ensures h[14] < 4 && h[14] == rec.miscRom % 4
    ensures h[15] < 64 && h[15] == rec.expansion % 64
  {
    assert h[7] == Flags7(rec, true);
    assert h[13] == VsOrConsole(rec, Flags7(rec, true));
    Flags7Fields(rec, true);
  }

  /** A cartridge with 32 KiB PRG and 8 KiB CHR and nothing else: 4E 45 53 1A 02 01 00 08 00 ... 00. */
  lemma {:induction false} PlainCartridgeHeader()
    ensures MakeHeader(Record(32768, 0, 0, 8192, 0, 0, 0, 0, 0, 0, 0, 0, "H", 0, 0, 0), true)
         == Some([0x4E, 0x45, 0x53, 0x1A, 0x02, 0x01, 0x00, 0x08, 0, 0, 0, 0, 0, 0, 0, 0])
  {
    var rec := Record(32768, 0, 0, 8192, 0, 0, 0, 0, 0, 0, 0, 0, "H", 0, 0, 0);
    assert PlainCartridge(rec);
    PlainCartridgeValues(rec);
    assert !UsesExponent(32768, PrgUnit) && !UsesExponent(8192, ChrUnit);
    assert Encodable(rec, true);
    var h := MakeHeader(rec, true).value;
    StoredValues(rec, true, h);
    var expected: seq<byte> := [0x4E, 0x45, 0x53, 0x1A, 0x02, 0x01, 0x00, 0x08, 0, 0, 0, 0, 0, 0, 0, 0];
    assert forall i | 0 <= i < 16 :: h[i] == expected[i];
    assert h == expected;
  }

  lemma {:induction false} StoredValues(rec: Record, nes2: bool, h: seq<byte>)
    requires MakeHeader(rec, nes2) == Some(h)
    ensures nes2 ==> RamLoggable(rec)
    ensures forall i | 0 <= i < 16 :: h[i] == HeaderValues(rec, nes2)[i]
  {
  }

  /** The fields of the plain cartridge: 32 KiB PRG, 8 KiB CHR, horizontal mirroring, everything else 0. */
  predicate PlainCartridge(rec: Record)
  {
    rec.prgRom == 32768 && rec.chrRom == 8192 && rec.mapper == 0 && rec.subMapper == 0
    && rec.prgRam == 0 && rec.prgNvram == 0 && rec.chrRam == 0 && rec.chrNvram == 0
    && rec.consoleType == 0 && rec.consoleRegion == 0 && rec.miscRom == 0 && rec.expansion == 0
    && rec.mirroring == "H" && rec.battery == 0
  }

  lemma {:induction false} PlainCartridgeValues(rec: Record)
    requires PlainCartridge(rec)
    ensures HeaderValues(rec, true) == [0x4E, 0x45, 0x53, 0x1A, 0x02, 0x01, 0x00, 0x08, 0, 0, 0, 0, 0, 0, 0, 0]
  {
    PlainCartridgeFront(rec);
    PlainCartridgeNes2(rec);
    var front: seq<nat> := [0x4E, 0x45, 0x53, 0x1A, 0x02, 0x01, 0x00, 0x08];
    assert HeaderValues(rec, true) == front + Nes2Bytes(rec);
  }

  lemma {:induction false} PlainCartridgeFront(rec: Record)
    requires PlainCartridge(rec)
    ensures MakeRomByte(rec.prgRom, PrgUnit, true) == 2 && MakeRomByte(rec.chrRom, ChrUnit, true) == 1
    ensures Flags6(rec) == 0 && Flags7(rec, true) == 8
  {
    assert !UsesExponent(rec.prgRom, PrgUnit) && !UsesExponent(rec.chrRom, ChrUnit);
    assert MirrorNibble(rec.mirroring) == 0;
    NibblePair(0, 0);
    NibblePair(8, 0);
  }

  lemma {:induction false} PlainCartridgeNes2(rec: Record)
    requires PlainCartridge(rec)
    ensures Nes2Bytes(rec) == [0, 0, 0, 0, 0, 0, 0, 0]
  {
    NibblePair(0, 0);
    assert MapperByte(rec.mapper, rec.subMapper) == 0;
    assert !UsesExponent(rec.prgRom, PrgUnit) && !UsesExponent(rec.chrRom, ChrUnit);
    assert SizeNibbleByte(rec.prgRom, rec.chrRom) == 0;
    assert RamByte(rec.prgRam, rec.prgNvram) == 0 && RamByte(rec.chrRam, rec.chrNvram) == 0;
    assert VsOrConsole(rec, Flags7(rec, true)) == 0;
  }
}
