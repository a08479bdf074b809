/**
 * The read phase of walk_dirs in nes_header_repair.py: a `.nes` file is
 * read through a cursor, and its first three bytes choose between an iNES
 * file (16-byte header, then content), a UNIF file (32-byte preamble, then
 * chunks of 4-byte ID, 4-byte little-endian length and payload) and a file
 * with no header at all.
 *
 * The bytes the script feeds to SHA-1 are collected in `hashed`; the digest
 * itself is computed by the caller.
 */
module Container {
  import opened Bits

  /** version_safe_str: the first three bytes read as characters. */
  function VersionSafeStr(buf: seq<byte>): (s: string)
    requires |buf| >= 3
    ensures |s| == 3 && forall i | 0 <= i < 3 :: s[i] as int == buf[i]
  {
    [buf[0] as char, buf[1] as char, buf[2] as char]
  }

  /** Only the first three bytes matter to version_safe_str. */
  lemma {:induction false} VersionSafeStrPrefix(a: seq<byte>, b: seq<byte>)
    requires |a| >= 3 && |b| >= 3 && a[..3] == b[..3]
    ensures VersionSafeStr(a) == VersionSafeStr(b)
  {
    assert a[0] == b[0] && a[1] == b[1] && a[2] == b[2] by {
      assert a[..3][0] == a[0] && a[..3][1] == a[1] && a[..3][2] == a[2];
    }
  }

  /** The number a byte string stands for when byte k weighs 2^(8k). */
  function LittleEndian(bs: seq<byte>): nat
  {
    if bs == [] then 0 else bs[0] + 256 * LittleEndian(bs[1..])
  }

  /** k little-endian bytes of n (what a UNIF writer stores as a chunk length). */
  function LittleEndianBytes(n: nat, k: nat): (bs: seq<byte>)
    ensures |bs| == k
  {
    if k == 0 then [] else [n % 256] + LittleEndianBytes(n / 256, k - 1)
  }

  function Reverse(s: seq<byte>): (r: seq<byte>)
    ensures |r| == |s|
    ensures forall i | 0 <= i < |s| :: r[i] == s[|s| - 1 - i]
  {
    if s == [] then [] else Reverse(s[1..]) + [s[0]]
  }

  lemma {:induction false} LittleEndianSnoc(s: seq<byte>, b: byte)
    ensures LittleEndian(s + [b]) == LittleEndian(s) + b * Pow2(8 * |s|)
  {
    if s == [] {
      assert [b][1..] == [];
    } else {
      var p := Pow2(8 * (|s| - 1));
      assert (s + [b])[1..] == s[1..] + [b];
      LittleEndianSnoc(s[1..], b);
      assert LittleEndian(s + [b]) == s[0] + 256 * (LittleEndian(s[1..]) + b * p);
      BytePower(|s| - 1);
      ShiftByte(s[0], LittleEndian(s[1..]), b, p);
    }
  }

  /** One more byte multiplies the place value by 256. */
  lemma {:induction false} BytePower(k: nat)
    ensures Pow2(8 * (k + 1)) == 256 * Pow2(8 * k)
  {
    Pow2Add(8, 8 * k);
    assert Pow2(8) == 256;
  }

  lemma {:induction false} ShiftByte(low: int, rest: int, b: int, p: int)
    ensures low + 256 * (rest + b * p) == low + 256 * rest + b * (256 * p)
  {
  }

  /** 256^k: how many values k bytes can hold. */
  function ByteRange(k: nat): (r: nat)
    ensures r >= 1
  {
    if k == 0 then 1 else 256 * ByteRange(k - 1)
  }

  /** Reading back k little-endian bytes of n gives n, for n below 256^k. */
  lemma {:induction false} LittleEndianRoundTrip(n: nat, k: nat)
    requires n < ByteRange(k)
    ensures LittleEndian(LittleEndianBytes(n, k)) == n
  {
    if k > 0 {
      LittleEndianRoundTrip(n / 256, k - 1);
      assert LittleEndianBytes(n, k)[1..] == LittleEndianBytes(n / 256, k - 1);
    }
  }

  /** 2^32: a chunk length is a 32-bit field. */
  const LengthLimit: nat := 0x1_0000_0000

  /** A 4-byte chunk length field reads back as the length written into it. */
  lemma {:induction false} LengthFieldRoundTrip(n: nat)
    requires n < LengthLimit
    ensures LittleEndian(LittleEndianBytes(n, 4)) == n
  {
    assert ByteRange(4) == LengthLimit;
    LittleEndianRoundTrip(n, 4);
  }

  /** from_bytes: sums byte << (offset * 8) over the (optionally reversed) bytes. */
  method FromBytes(data: seq<byte>, bigEndian: bool) returns (num: nat)
    ensures num == LittleEndian(if bigEndian then Reverse(data) else data)
  {
    var bytes := if bigEndian then Reverse(data) else data;
    num := 0;
    for offset := 0 to |bytes|
      invariant num == LittleEndian(bytes[..offset])
    {
      LittleEndianSnoc(bytes[..offset], bytes[offset]);
      assert bytes[..offset + 1] == bytes[..offset] + [bytes[offset]];
      num := num + bytes[offset] * Pow2(offset * 8);
    }
    assert bytes[..|bytes|] == bytes;
  }

  /** An open ROM file: its bytes and the position `romfile.read` continues from. */
  class RomFile {
    const data: seq<byte>
    var pos: nat

    ghost predicate Valid()
      reads this
    {
      pos <= |data|
    }

    constructor (contents: seq<byte>)
      ensures Valid() && data == contents && pos == 0
    {
      data := contents;
      pos := 0;
    }

    /** romfile.read(n): the next min(n, remaining) bytes; fewer, or none, at the end. */
    method Read(n: nat) returns (buf: seq<byte>)
      requires Valid()
      modifies this
      ensures Valid() && pos == Min(old(pos) + n, |data|)
      ensures buf == data[old(pos)..pos]
    {
      var end := Min(pos + n, |data|);
      buf := data[pos..end];
      pos := end;
    }
  }

  datatype Shape = INes | Unif | Unheadered

  /**
   * What the read phase leaves behind: the old header (iNES only), the
   * `prgrom` and `chrrom` buffers, and the bytes fed to SHA-1 in order.
   */
  datatype Extraction = Extraction(
    shape: Shape, header: Option<seq<byte>>,
    prgrom: seq<byte>, chrrom: seq<byte>, hashed: seq<byte>)

  datatype Payloads = Payloads(prgrom: seq<byte>, chrrom: seq<byte>, hashed: seq<byte>)

  /**
   * The buffers only grow at their ends: what was collected before stays
   * in front, and the hash input grows by what the PRG and CHR buffers do.
   */
  predicate Appends(before: Payloads, after: Payloads)
  {
    && before.prgrom <= after.prgrom && before.chrrom <= after.chrrom && before.hashed <= after.hashed
    && |after.hashed| - |before.hashed| == |after.prgrom| - |before.prgrom| + |after.chrrom| - |before.chrrom|
  }

  /** One chunk's payload: PRG* and CHR* chunks are kept and hashed, others dropped. */
  function Collect(command: string, payload: seq<byte>, acc: Payloads): (r: Payloads)
    ensures Appends(acc, r)
    ensures command != "PRG" && command != "CHR" ==> r == acc
  {
    if command == "PRG" then Payloads(acc.prgrom + payload, acc.chrrom, acc.hashed + payload)
    else if command == "CHR" then Payloads(acc.prgrom, acc.chrrom + payload, acc.hashed + payload)
    else acc
  }

  /**
   * The UNIF chunk loop from a position just past a chunk ID: read the
   * length and the payload, each read stopping at the end of the file,
   * then go on as NextChunk says. None where Python raises IndexError
   * because the length read comes back empty.
   */
  function ChunkWalk(data: seq<byte>, pos: nat, command: string, acc: Payloads): (r: Option<Payloads>)
    requires pos <= |data|
    ensures r.Some? ==> Appends(acc, r.value)
    decreases |data| - pos, 1
  {
    if pos == |data| then None
    else
      var lenEnd := Min(pos + 4, |data|);
      var payEnd := Min(lenEnd + LittleEndian(data[pos..lenEnd]), |data|);
      NextChunk(data, payEnd, Collect(command, data[lenEnd..payEnd], acc))
  }

  /**
   * The ID read that closes a pass of the chunk loop: an empty read ends
   * the loop, a read of one or two bytes raises IndexError (None), and a
   * read of three or four bytes names the next chunk.
   */
  function NextChunk(data: seq<byte>, payEnd: nat, acc: Payloads): (r: Option<Payloads>)
    requires payEnd <= |data|
    ensures r.Some? ==> Appends(acc, r.value)
    decreases |data| - payEnd, 0
  {
    var tagEnd := Min(payEnd + 4, |data|);
    if tagEnd == payEnd then Some(acc)
    else if tagEnd - payEnd < 3 then None
    else ChunkWalk(data, tagEnd, VersionSafeStr(data[payEnd..tagEnd]), acc)
  }

  /**
   * The length field at `pos` is complete and the payload after it is
   * `payload`: what it takes for one pass of the chunk loop to read
   * exactly that payload.
   */
  predicate ReadsChunk(data: seq<byte>, pos: nat, payload: seq<byte>)
  {
    && pos + 4 + |payload| <= |data|
    && pos + 4 + |payload| == Min(pos + 4 + LittleEndian(data[pos..pos + 4]), |data|)
    && data[pos + 4..pos + 4 + |payload|] == payload
  }

  /** One pass of the chunk loop over a complete length field, up to the ID read. */
  lemma {:induction false} ChunkWalkStep(data: seq<byte>, pos: nat, command: string, acc: Payloads, payload: seq<byte>)
    requires ReadsChunk(data, pos, payload)
    ensures ChunkWalk(data, pos, command, acc) == NextChunk(data, pos + 4 + |payload|, Collect(command, payload, acc))
  {
    assert Min(pos + 4, |data|) == pos + 4;
  }

  /** One pass of the chunk loop, in terms of where its length and payload reads end. */
  lemma {:induction false} ChunkWalkReads(data: seq<byte>, pos: nat, lenEnd: nat, payEnd: nat, command: string, acc: Payloads)
    requires pos < |data| && lenEnd == Min(pos + 4, |data|)
    requires payEnd == Min(lenEnd + LittleEndian(data[pos..lenEnd]), |data|)
    ensures ChunkWalk(data, pos, command, acc) == NextChunk(data, payEnd, Collect(command, data[lenEnd..payEnd], acc))
  {
  }

  /** The ID read that closes a pass, in terms of where it ends. */
  lemma {:induction false} NextChunkReads(data: seq<byte>, payEnd: nat, tagEnd: nat, acc: Payloads)
    requires payEnd <= |data| && tagEnd == Min(payEnd + 4, |data|)
    ensures tagEnd == payEnd ==> NextChunk(data, payEnd, acc) == Some(acc)
    ensures 0 < tagEnd - payEnd < 3 ==> NextChunk(data, payEnd, acc) == None
    ensures tagEnd - payEnd >= 3 ==> NextChunk(data, payEnd, acc) == ChunkWalk(data, tagEnd, VersionSafeStr(data[payEnd..tagEnd]), acc)
  {
  }

  /**
   * The whole read phase for a `.nes` file. None where Python raises
   * IndexError (a file under three bytes, or a UNIF file cut short as
   * ChunkWalk describes).
   */
  function Extract(data: seq<byte>): (r: Option<Extraction>)
    ensures |data| < 3 ==> r == None
    ensures r.Some? ==> |r.value.hashed| == |r.value.prgrom| + |r.value.chrrom|
    ensures r.Some? ==> (r.value.header.Some? <==> r.value.shape == INes)
  {
    if |data| < 3 then None
    else
      var first := Min(16, |data|);
      var headerId := VersionSafeStr(data[..first]);
      if headerId == "NES" then
        Some(Extraction(INes, Some(data[..first]), data[first..], [], data[first..]))
      else if headerId == "UNI" then
        var idStart := Min(32, |data|);
        var idEnd := Min(idStart + 4, |data|);
        if idEnd - idStart < 3 then None
        else
          match ChunkWalk(data, idEnd, VersionSafeStr(data[idStart..idEnd]), Payloads([], [], []))
          case None => None
          case Some(p) => Some(Extraction(Unif, None, p.prgrom, p.chrrom, p.hashed))
      else
        Some(Extraction(Unheadered, None, data, [], data))
  }

  /**
   * The UNIF chunk loop of walk_dirs, entered with the first chunk ID read:
   * None where Python raises IndexError, else the PRG and CHR payloads and
   * the hashed bytes, with the cursor at the end of the file.
   */
  method ReadUnifChunks(romfile: RomFile, firstId: seq<byte>) returns (r: Option<Payloads>)
    requires romfile.Valid() && |firstId| >= 3
    modifies romfile
    ensures romfile.Valid()
    ensures r == ChunkWalk(romfile.data, old(romfile.pos), VersionSafeStr(firstId), Payloads([], [], []))
    ensures r.Some? ==> romfile.pos == |romfile.data|
  {
    var buf := firstId;
    var command := VersionSafeStr(buf);
    ghost var walk := ChunkWalk(romfile.data, romfile.pos, command, Payloads([], [], []));
    var prgrom: seq<byte> := [];
    var chrrom: seq<byte> := [];
    var hashed: seq<byte> := [];
    while |buf| > 0
      invariant romfile.Valid()
      invariant |buf| > 0 ==> ChunkWalk(romfile.data, romfile.pos, command, Payloads(prgrom, chrrom, hashed)) == walk
      invariant |buf| == 0 ==> romfile.pos == |romfile.data| && walk == Some(Payloads(prgrom, chrrom, hashed))
      decreases |romfile.data| - romfile.pos
    {
      ghost var start := romfile.pos;
      var lengthBytes := romfile.Read(4);
      if |lengthBytes| == 0 {
        return None;
      }
      ghost var lenEnd := romfile.pos;
      var readLength := FromBytes(lengthBytes, false);
      var payload := romfile.Read(readLength);
      ghost var payEnd := romfile.pos;
      ghost var acc := Payloads(prgrom, chrrom, hashed);
      ChunkWalkReads(romfile.data, start, lenEnd, payEnd, command, acc);
      if command == "PRG" {
        prgrom := prgrom + payload;
        hashed := hashed + payload;
      } else if command == "CHR" {
        chrrom := chrrom + payload;
        hashed := hashed + payload;
      }
      assert Payloads(prgrom, chrrom, hashed) == Collect(command, payload, acc);
      buf := romfile.Read(4);
      NextChunkReads(romfile.data, payEnd, romfile.pos, Payloads(prgrom, chrrom, hashed));
      if |buf| > 0 {
        if |buf| < 3 {
          return None;
        }
        command := VersionSafeStr(buf);
      }
    }
    return Some(Payloads(prgrom, chrrom, hashed));
  }

  /**
   * The closing `while buf` loop of walk_dirs: 64 KiB reads until a read
   * comes back empty. Entered with the last buffer read; returns every byte
   * the loop appends to `prgrom` (and to the hash).
   */
  method ReadRemainder(romfile: RomFile, last: seq<byte>) returns (rest: seq<byte>)
    requires romfile.Valid()
    requires |last| == 0 ==> romfile.pos == |romfile.data|
    modifies romfile
    ensures romfile.Valid()
    ensures rest == romfile.data[old(romfile.pos)..] && romfile.pos == |romfile.data|
  {
    var buf := last;
    rest := [];
    while |buf| > 0
      invariant romfile.Valid() && old(romfile.pos) <= romfile.pos
      invariant rest == romfile.data[old(romfile.pos)..romfile.pos]
      invariant |buf| == 0 ==> romfile.pos == |romfile.data|
      decreases |romfile.data| - romfile.pos, |buf|
    {
      buf := romfile.Read(65536);
      rest := rest + buf;
    }
  }

  /** The reading code of walk_dirs, over a cursor on the file's bytes. */
  method ExtractContent(contents: seq<byte>) returns (r: Option<Extraction>)
    ensures r == Extract(contents)
  {
    var romfile := new RomFile(contents);
    var buf := romfile.Read(16);
    if |buf| < 3 {
      return None;
    }
    var headerId := VersionSafeStr(buf);
    if headerId == "NES" {
      var rest := ReadRemainder(romfile, buf);
      return Some(Extraction(INes, Some(buf), rest, [], rest));
    } else if headerId == "UNI" {
      assert VersionSafeStr(contents[..Min(16, |contents|)]) == "UNI";
      buf := romfile.Read(16);
      assert romfile.pos == Min(32, |contents|);
      buf := romfile.Read(4);
      if |buf| < 3 {
        return None;
      }
      assert buf == contents[Min(32, |contents|)..Min(36, |contents|)];
      var walk := ReadUnifChunks(romfile, buf);
      match walk
      case None => return None;
      case Some(p) =>
        var rest := ReadRemainder(romfile, []);
        assert rest == [] && p.prgrom + rest == p.prgrom && p.hashed + rest == p.hashed;
        assert walk == ChunkWalk(contents, Min(36, |contents|), VersionSafeStr(buf), Payloads([], [], []));
        assert headerId != "NES";
        return Some(Extraction(Unif, None, p.prgrom + rest, p.chrrom, p.hashed + rest));
    } else {
      var rest := ReadRemainder(romfile, buf);
      assert buf + rest == contents;
      return Some(Extraction(Unheadered, None, buf + rest, [], buf + rest));
    }
  }

  /**
   * An iNES or header-less file loses nothing: the old header and the
   * content together are the file, and the hash covers exactly the
   * content. Only a file under three bytes is refused.
   */
  lemma {:induction false} NonUnifContent(data: seq<byte>)
    requires |data| < 3 || VersionSafeStr(data) != "UNI"
    ensures Extract(data).Some? <==> |data| >= 3
    ensures Extract(data).Some? ==>
      var x := Extract(data).value;
      && x.chrrom == [] && x.hashed == x.prgrom
      && (x.shape == INes <==> VersionSafeStr(data) == "NES")
      && (x.shape == INes ==> x.header.Some? && x.header.value + x.prgrom == data && |x.header.value| == Min(16, |data|))
      && (x.shape != INes ==> x.shape == Unheadered && x.header == None && x.prgrom == data)
  {
    if |data| >= 3 {
      VersionSafeStrPrefix(data[..Min(16, |data|)], data);
      assert data[..Min(16, |data|)] + data[Min(16, |data|)..] == data;
    }
  }

  /** Everything collected so far is hashed, and nothing else. */
  predicate HashesCollected(acc: Payloads)
  {
    multiset(acc.hashed) == multiset(acc.prgrom + acc.chrrom)
  }

  /** Collecting one payload keeps every collected byte hashed. */
  lemma {:induction false} CollectKeepsHashes(command: string, payload: seq<byte>, acc: Payloads)
    requires HashesCollected(acc)
    ensures HashesCollected(Collect(command, payload, acc))
  {
    var acc' := Collect(command, payload, acc);
    if command == "PRG" {
      assert acc'.prgrom + acc'.chrrom == acc.prgrom + payload + acc.chrrom;
    } else if command == "CHR" {
      assert acc'.prgrom + acc'.chrrom == acc.prgrom + (acc.chrrom + payload);
    }
  }

  lemma {:induction false} ChunkWalkHashesCollected(data: seq<byte>, pos: nat, command: string, acc: Payloads)
    requires pos <= |data| && HashesCollected(acc)
    ensures ChunkWalk(data, pos, command, acc).Some? ==> HashesCollected(ChunkWalk(data, pos, command, acc).value)
    decreases |data| - pos, 1
  {
    if pos < |data| {
      var lenEnd := Min(pos + 4, |data|);
      var payEnd := Min(lenEnd + LittleEndian(data[pos..lenEnd]), |data|);
      var acc' := Collect(command, data[lenEnd..payEnd], acc);
      ChunkWalkReads(data, pos, lenEnd, payEnd, command, acc);
      CollectKeepsHashes(command, data[lenEnd..payEnd], acc);
      NextChunkHashesCollected(data, payEnd, acc');
    }
  }

  lemma {:induction false} NextChunkHashesCollected(data: seq<byte>, payEnd: nat, acc: Payloads)
    requires payEnd <= |data| && HashesCollected(acc)
    ensures NextChunk(data, payEnd, acc).Some? ==> HashesCollected(NextChunk(data, payEnd, acc).value)
    decreases |data| - payEnd, 0
  {
    var tagEnd := Min(payEnd + 4, |data|);
    if tagEnd - payEnd >= 3 {
      ChunkWalkHashesCollected(data, tagEnd, VersionSafeStr(data[payEnd..tagEnd]), acc);
    }
  }

  /**
   * Whatever the shape, the SHA-1 input is the PRG and CHR content: the
   * same bytes, in iNES and header-less files also in the same order.
   */
  lemma {:induction false} HashCoversContent(data: seq<byte>)
    requires Extract(data).Some?
    ensures HashesCollected(Payloads(Extract(data).value.prgrom, Extract(data).value.chrrom, Extract(data).value.hashed))
    ensures Extract(data).value.shape != Unif ==> Extract(data).value.hashed == Extract(data).value.prgrom + Extract(data).value.chrrom
  {
    var first := Min(16, |data|);
    if VersionSafeStr(data[..first]) == "UNI" {
      var idStart := Min(32, |data|);
      var idEnd := Min(idStart + 4, |data|);
      ChunkWalkHashesCollected(data, idEnd, VersionSafeStr(data[idStart..idEnd]), Payloads([], [], []));
    } else {
      assert Extract(data).value.prgrom + [] == Extract(data).value.prgrom;
    }
  }

  /** A UNIF chunk as a writer lays it out: a 4-byte ID, a declared length and the payload. */
  datatype Chunk = Chunk(id: seq<byte>, declared: nat, payload: seq<byte>)

  function ChunkBytes(c: Chunk): seq<byte>
  {
    c.id + LittleEndianBytes(c.declared, 4) + c.payload
  }

  function StreamBytes(cs: seq<Chunk>): seq<byte>
  {
    if cs == [] then [] else ChunkBytes(cs[0]) + StreamBytes(cs[1..])
  }

  /**
   * A well-formed chunk sequence: at least one chunk, 4-byte IDs, lengths
   * that fit in 32 bits, every payload as long as declared, except that
   * the file may end early inside the last one.
   */
  predicate ChunkStream(cs: seq<Chunk>)
  {
    && |cs| > 0
    && (forall i | 0 <= i < |cs| :: |cs[i].id| == 4 && cs[i].declared < LengthLimit)
    && (forall i | 0 <= i < |cs| - 1 :: |cs[i].payload| == cs[i].declared)
    && |cs[|cs| - 1].payload| <= cs[|cs| - 1].declared
  }

  predicate IsKind(c: Chunk, tag: string)
  {
    |c.id| >= 3 && VersionSafeStr(c.id) == tag
  }

  /** A chunk's payload if it carries the given tag, else nothing. */
  function TaggedPayload(c: Chunk, tag: string): seq<byte>
  {
    if IsKind(c, tag) then c.payload else []
  }

  /** A chunk's payload if it is a PRG or CHR chunk, else nothing. */
  function RomPayload(c: Chunk): seq<byte>
  {
    if IsKind(c, "PRG") || IsKind(c, "CHR") then c.payload else []
  }

  function PrgPayloads(cs: seq<Chunk>): seq<byte>
  {
    if cs == [] then [] else TaggedPayload(cs[0], "PRG") + PrgPayloads(cs[1..])
  }

  function ChrPayloads(cs: seq<Chunk>): seq<byte>
  {
    if cs == [] then [] else TaggedPayload(cs[0], "CHR") + ChrPayloads(cs[1..])
  }

  /** PRG and CHR payloads in file order. */
  function RomPayloads(cs: seq<Chunk>): seq<byte>
  {
    if cs == [] then [] else RomPayload(cs[0]) + RomPayloads(cs[1..])
  }

  /**
   * Where the fields of one chunk land when the chunk sits after `prefix`
   * and before `rest`: its ID, then the reads of its length and payload.
   */
  lemma {:induction false} ChunkReads(data: seq<byte>, prefix: seq<byte>, c: Chunk, rest: seq<byte>)
    requires data == prefix + ChunkBytes(c) + rest
    requires |c.id| == 4 && c.declared < LengthLimit
    requires |c.payload| == c.declared || (rest == [] && |c.payload| <= c.declared)
    ensures |data| == |prefix| + 8 + |c.payload| + |rest|
    ensures data[|prefix|..|prefix| + 4] == c.id
    ensures ReadsChunk(data, |prefix| + 4, c.payload)
  {
    var lengthBytes := LittleEndianBytes(c.declared, 4);
    LengthFieldRoundTrip(c.declared);
    FieldsAt(prefix, c.id, lengthBytes, c.payload, rest);
    var lenEnd := |prefix| + 8;
    assert LittleEndian(data[lenEnd - 4..lenEnd]) == c.declared;
    if |c.payload| != c.declared {
      assert |data| == lenEnd + |c.payload|;
    }
  }

  /** Where the fields of a chunk sit in the file. */
  lemma {:induction false} FieldsAt(prefix: seq<byte>, id: seq<byte>, lengthBytes: seq<byte>, payload: seq<byte>, rest: seq<byte>)
    ensures var data := prefix + (id + lengthBytes + payload) + rest;
      var lenStart := |prefix| + |id|;
      var payStart := lenStart + |lengthBytes|;
      && |data| == payStart + |payload| + |rest|
      && data[|prefix|..lenStart] == id
      && data[lenStart..payStart] == lengthBytes
      && data[payStart..payStart + |payload|] == payload
  {
    var data := prefix + (id + lengthBytes + payload) + rest;
    var lenStart := |prefix| + |id|;
    var payStart := lenStart + |lengthBytes|;
    assert data[|prefix|..lenStart] == id by {
      forall i | 0 <= i < |id|
        ensures data[|prefix| + i] == id[i]
      {
        assert data[|prefix| + i] == (id + lengthBytes + payload)[i];
      }
    }
    assert data[lenStart..payStart] == lengthBytes by {
      forall i | 0 <= i < |lengthBytes|
        ensures data[lenStart + i] == lengthBytes[i]
      {
        assert data[lenStart + i] == (id + lengthBytes + payload)[|id| + i];
      }
    }
    assert data[payStart..payStart + |payload|] == payload by {
      forall i | 0 <= i < |payload|
        ensures data[payStart + i] == payload[i]
      {
        assert data[payStart + i] == (id + lengthBytes + payload)[|id| + |lengthBytes| + i];
      }
    }
  }

  lemma {:induction false} ChunkStreamTail(cs: seq<Chunk>)
    requires ChunkStream(cs) && |cs| >= 2
    ensures ChunkStream(cs[1..])
  {
    assert cs[1..][|cs[1..]| - 1] == cs[|cs| - 1];
  }

  lemma {:induction false} AppendAssociates(a: seq<byte>, b: seq<byte>, c: seq<byte>)
    ensures a + b + c == a + (b + c)
  {
  }

  /** Collecting one chunk appends its tagged payloads to the accumulators. */
  lemma {:induction false} CollectChunk(c: Chunk, acc: Payloads)
    requires |c.id| >= 3
    ensures Collect(VersionSafeStr(c.id), c.payload, acc)
         == Payloads(acc.prgrom + TaggedPayload(c, "PRG"), acc.chrrom + TaggedPayload(c, "CHR"), acc.hashed + RomPayload(c))
  {
    var command := VersionSafeStr(c.id);
    if command == "PRG" {
      assert command != "CHR";
    } else if command != "CHR" {
      assert acc.prgrom + [] == acc.prgrom && acc.chrrom + [] == acc.chrrom && acc.hashed + [] == acc.hashed;
    } else {
      assert acc.prgrom + [] == acc.prgrom;
    }
  }

  /** Collecting the first chunk's payload extends the accumulators as the payload lists do. */
  lemma {:induction false} CollectFirst(cs: seq<Chunk>, acc: Payloads)
    requires |cs| > 0 && |cs[0].id| >= 3
    ensures var acc' := Collect(VersionSafeStr(cs[0].id), cs[0].payload, acc);
      && acc'.prgrom + PrgPayloads(cs[1..]) == acc.prgrom + PrgPayloads(cs)
      && acc'.chrrom + ChrPayloads(cs[1..]) == acc.chrrom + ChrPayloads(cs)
      && acc'.hashed + RomPayloads(cs[1..]) == acc.hashed + RomPayloads(cs)
  {
    CollectChunk(cs[0], acc);
    AppendAssociates(acc.prgrom, TaggedPayload(cs[0], "PRG"), PrgPayloads(cs[1..]));
    AppendAssociates(acc.chrrom, TaggedPayload(cs[0], "CHR"), ChrPayloads(cs[1..]));
    AppendAssociates(acc.hashed, RomPayload(cs[0]), RomPayloads(cs[1..]));
  }

  /**
   * The chunks `cs` fill `data` from `pos` to its end, as the walk reads
   * them: each chunk's ID, then its length and payload, then the next chunk.
   */
  predicate LaidOut(data: seq<byte>, pos: nat, cs: seq<Chunk>)
    decreases |cs|
  {
    && |cs| > 0
    && pos + 4 <= |data|
    && data[pos..pos + 4] == cs[0].id
    && ReadsChunk(data, pos + 4, cs[0].payload)
    && (var next := pos + 8 + |cs[0].payload|;
        if |cs| == 1 then next == |data| else LaidOut(data, next, cs[1..]))
  }

  /** A well-formed chunk stream written after `prefix` is laid out as the walk reads it. */
  lemma {:induction false} StreamLaidOut(prefix: seq<byte>, cs: seq<Chunk>)
    requires ChunkStream(cs)
    ensures LaidOut(prefix + StreamBytes(cs), |prefix|, cs)
    decreases |cs|
  {
    var data := prefix + StreamBytes(cs);
    var prefix' := prefix + ChunkBytes(cs[0]);
    var rest := StreamBytes(cs[1..]);
    assert data == prefix' + rest by {
      assert StreamBytes(cs) == ChunkBytes(cs[0]) + rest;
      AppendAssociates(prefix, ChunkBytes(cs[0]), rest);
    }
    if |cs| == 1 {
      assert cs[1..] == [];
    }
    ChunkReads(data, prefix, cs[0], rest);
    if |cs| > 1 {
      ChunkStreamTail(cs);
      StreamLaidOut(prefix', cs[1..]);
      assert |prefix'| == |prefix| + 8 + |cs[0].payload|;
      assert LaidOut(data, |prefix| + 8 + |cs[0].payload|, cs[1..]);
    }
  }

  /** One pass of the chunk loop over the first of the chunks laid out from `pos`. */
  lemma {:induction false} WalkFirst(data: seq<byte>, pos: nat, cs: seq<Chunk>, acc: Payloads)
    requires LaidOut(data, pos, cs)
    ensures pos + 8 + |cs[0].payload| <= |data|
    ensures ChunkWalk(data, pos + 4, VersionSafeStr(cs[0].id), acc)
         == NextChunk(data, pos + 8 + |cs[0].payload|, Collect(VersionSafeStr(cs[0].id), cs[0].payload, acc))
  {
    ChunkWalkStep(data, pos + 4, VersionSafeStr(cs[0].id), acc, cs[0].payload);
  }

  /** The ID read in front of chunks laid out from `pos` names the first of them. */
  lemma {:induction false} NextChunkLaidOut(data: seq<byte>, pos: nat, cs: seq<Chunk>, acc: Payloads)
    requires LaidOut(data, pos, cs)
    ensures pos + 4 <= |data|
    ensures NextChunk(data, pos, acc) == ChunkWalk(data, pos + 4, VersionSafeStr(cs[0].id), acc)
  {
  }

  /** Past the first chunk, the rest of the chunks are laid out in turn. */
  lemma {:induction false} LaidOutTail(data: seq<byte>, pos: nat, cs: seq<Chunk>)
    requires LaidOut(data, pos, cs) && |cs| > 1
    ensures LaidOut(data, pos + 8 + |cs[0].payload|, cs[1..])
  {
  }

  /**
   * The payloads the walk collects from chunks laid out from `pos`: their
   * PRG payloads, their CHR payloads and both in file order, added to `acc`.
   */
  predicate WalksTo(data: seq<byte>, pos: nat, cs: seq<Chunk>, acc: Payloads)
    requires |cs| > 0
  {
    && pos + 4 <= |data|
    && |cs[0].id| >= 3
    && ChunkWalk(data, pos + 4, VersionSafeStr(cs[0].id), acc)
       == Some(Payloads(acc.prgrom + PrgPayloads(cs), acc.chrrom + ChrPayloads(cs), acc.hashed + RomPayloads(cs)))
  }

  /** The chunk walk over chunks laid out from `pos` collects exactly their PRG and CHR payloads. */
  lemma {:induction false} WalkLaidOut(data: seq<byte>, pos: nat, cs: seq<Chunk>, acc: Payloads)
    requires LaidOut(data, pos, cs)
    ensures WalksTo(data, pos, cs, acc)
    decreases |cs|
  {
    if |cs| == 1 {
      WalkLast(data, pos, cs, acc);
    } else {
      LaidOutTail(data, pos, cs);
      WalkLaidOut(data, pos + 8 + |cs[0].payload|, cs[1..], Collect(VersionSafeStr(cs[0].id), cs[0].payload, acc));
      WalkMore(data, pos, cs, acc);
    }
  }

  /** The walk over the last chunk ends at the end of the file. */
  lemma {:induction false} WalkLast(data: seq<byte>, pos: nat, cs: seq<Chunk>, acc: Payloads)
    requires LaidOut(data, pos, cs) && |cs| == 1
    ensures WalksTo(data, pos, cs, acc)
  {
    var acc' := Collect(VersionSafeStr(cs[0].id), cs[0].payload, acc);
    WalkFirst(data, pos, cs, acc);
    CollectFirst(cs, acc);
    assert cs[1..] == [];
    assert acc' == Payloads(acc'.prgrom + [], acc'.chrrom + [], acc'.hashed + []);
  }

  /** The walk over a chunk that further chunks follow, given the walk over those. */
  lemma {:induction false} WalkMore(data: seq<byte>, pos: nat, cs: seq<Chunk>, acc: Payloads)
    requires LaidOut(data, pos, cs) && |cs| > 1
    requires WalksTo(data, pos + 8 + |cs[0].payload|, cs[1..], Collect(VersionSafeStr(cs[0].id), cs[0].payload, acc))
    ensures WalksTo(data, pos, cs, acc)
  {
    var next := pos + 8 + |cs[0].payload|;
    var acc' := Collect(VersionSafeStr(cs[0].id), cs[0].payload, acc);
    WalkFirst(data, pos, cs, acc);
    LaidOutTail(data, pos, cs);
    NextChunkLaidOut(data, next, cs[1..], acc');
    CollectFirst(cs, acc);
  }

  /**
   * A UNIF file written as a 32-byte preamble followed by a well-formed
   * chunk stream reads back as its PRG payloads, its CHR payloads, and the
   * PRG and CHR payloads in file order as the SHA-1 input.
   */
  lemma {:induction false} UnifRoundTrip(preamble: seq<byte>, cs: seq<Chunk>)
    requires |preamble| == 32 && VersionSafeStr(preamble) == "UNI"
    requires ChunkStream(cs)
    ensures Extract(preamble + StreamBytes(cs))
         == Some(Extraction(Unif, None, PrgPayloads(cs), ChrPayloads(cs), RomPayloads(cs)))
  {
    var data := preamble + StreamBytes(cs);
    var empty := Payloads([], [], []);
    StreamLaidOut(preamble, cs);
    WalkLaidOut(data, 32, cs, empty);
    VersionSafeStrPrefix(data[..16], preamble);
    assert empty.prgrom + PrgPayloads(cs) == PrgPayloads(cs);
    assert empty.chrrom + ChrPayloads(cs) == ChrPayloads(cs);
    assert empty.hashed + RomPayloads(cs) == RomPayloads(cs);
    ExtractUnif(data, Payloads(PrgPayloads(cs), ChrPayloads(cs), RomPayloads(cs)));
  }

  /** A file whose header reads "UNI" and whose chunk walk succeeds extracts as UNIF. */
  lemma {:induction false} ExtractUnif(data: seq<byte>, p: Payloads)
    requires |data| >= 36 && VersionSafeStr(data[..16]) == "UNI"
    requires ChunkWalk(data, 36, VersionSafeStr(data[32..36]), Payloads([], [], [])) == Some(p)
    ensures Extract(data) == Some(Extraction(Unif, None, p.prgrom, p.chrrom, p.hashed))
  {
  }

  /** No CHR chunk comes before a PRG chunk (the usual UNIF layout). */
  predicate PrgBeforeChr(cs: seq<Chunk>)
  {
    forall i, j | 0 <= i < j < |cs| :: !(IsKind(cs[i], "CHR") && IsKind(cs[j], "PRG"))
  }

  /** With PRG chunks first, the SHA-1 input is the PRG content followed by the CHR content. */
  lemma {:induction false} RomPayloadsInOrder(cs: seq<Chunk>)
    requires PrgBeforeChr(cs)
    ensures RomPayloads(cs) == PrgPayloads(cs) + ChrPayloads(cs)
  {
    if cs != [] {
      PrgBeforeChrTail(cs);
      RomPayloadsInOrder(cs[1..]);
      if IsKind(cs[0], "CHR") {
        NoPrgAfter(cs);
        RomPayloadsChrFirst(cs);
      } else {
        RomPayloadsOtherFirst(cs);
      }
    }
  }

  lemma {:induction false} PrgBeforeChrTail(cs: seq<Chunk>)
    requires cs != [] && PrgBeforeChr(cs)
    ensures PrgBeforeChr(cs[1..])
  {
    forall i, j | 0 <= i < j < |cs[1..]|
      ensures !(IsKind(cs[1..][i], "CHR") && IsKind(cs[1..][j], "PRG"))
    {
      assert cs[1..][i] == cs[i + 1] && cs[1..][j] == cs[j + 1];
    }
  }

  /** A CHR chunk is not a PRG chunk. */
  lemma {:induction false} ChrIsNotPrg(c: Chunk)
    requires IsKind(c, "CHR")
    ensures !IsKind(c, "PRG")
  {
    assert VersionSafeStr(c.id)[0] == 'C';
  }

  /** The order step for a CHR chunk that no PRG chunk follows. */
  lemma {:induction false} RomPayloadsChrFirst(cs: seq<Chunk>)
    requires cs != [] && IsKind(cs[0], "CHR") && PrgPayloads(cs[1..]) == []
    requires RomPayloads(cs[1..]) == PrgPayloads(cs[1..]) + ChrPayloads(cs[1..])
    ensures RomPayloads(cs) == PrgPayloads(cs) + ChrPayloads(cs)
  {
    ChrIsNotPrg(cs[0]);
    var p := cs[0].payload;
    assert PrgPayloads(cs) == [] + [];
    assert ChrPayloads(cs) == p + ChrPayloads(cs[1..]);
    assert RomPayloads(cs) == p + ([] + ChrPayloads(cs[1..]));
  }

  /** The order step for a chunk that is not a CHR chunk. */
  lemma {:induction false} RomPayloadsOtherFirst(cs: seq<Chunk>)
    requires cs != [] && !IsKind(cs[0], "CHR")
    requires RomPayloads(cs[1..]) == PrgPayloads(cs[1..]) + ChrPayloads(cs[1..])
    ensures RomPayloads(cs) == PrgPayloads(cs) + ChrPayloads(cs)
  {
    var p := RomPayload(cs[0]);
    assert TaggedPayload(cs[0], "PRG") == p;
    assert ChrPayloads(cs) == [] + ChrPayloads(cs[1..]);
    AppendAssociates(p, PrgPayloads(cs[1..]), ChrPayloads(cs[1..]));
  }

  lemma {:induction false} NoPrgAfter(cs: seq<Chunk>)
    requires |cs| > 0 && PrgBeforeChr(cs) && IsKind(cs[0], "CHR")
    ensures PrgPayloads(cs[1..]) == []
  {
    NoPrgIn(cs[1..]);
    forall j | 0 <= j < |cs[1..]| ensures !IsKind(cs[1..][j], "PRG") {
      assert cs[1..][j] == cs[j + 1];
    }
  }

  lemma {:induction false} NoPrgIn(cs: seq<Chunk>)
    ensures (forall j | 0 <= j < |cs| :: !IsKind(cs[j], "PRG")) ==> PrgPayloads(cs) == []
  {
    if cs != [] {
      NoPrgIn(cs[1..]);
      assert forall j | 0 <= j < |cs[1..]| :: cs[1..][j] == cs[j + 1];
    }
  }

  /** The payload lists of a PRG chunk followed by a CHR chunk. */
  lemma {:induction false} PrgThenChrPayloads(prg: Chunk, chr: Chunk)
    requires |prg.id| >= 3 && VersionSafeStr(prg.id) == "PRG"
    requires |chr.id| >= 3 && VersionSafeStr(chr.id) == "CHR"
    ensures PrgPayloads([prg, chr]) == prg.payload
    ensures ChrPayloads([prg, chr]) == chr.payload
    ensures RomPayloads([prg, chr]) == prg.payload + chr.payload
  {
    assert "PRG" != "CHR" by {
      assert "PRG"[0] != "CHR"[0];
    }
    assert TaggedPayload(prg, "PRG") == prg.payload && TaggedPayload(prg, "CHR") == [];
    assert TaggedPayload(chr, "PRG") == [] && TaggedPayload(chr, "CHR") == chr.payload;
    assert RomPayload(prg) == prg.payload && RomPayload(chr) == chr.payload;
    var cs := [prg, chr];
    assert cs[1..] == [chr] && cs[1..][1..] == [];
    assert PrgPayloads([chr]) == [] + [];
    assert ChrPayloads([chr]) == chr.payload + [];
    assert RomPayloads([chr]) == chr.payload + [];
  }

  /**
   * A UNIF file with a PRG0 chunk holding 1 2 3 4 and a CHR0 chunk holding
   * 5 6: the hash input, and the content a rewrite writes, is 1 2 3 4 5 6.
   */
  lemma {:induction false} UnifTwoChunks()
    ensures var preamble := [0x55, 0x4E, 0x49, 0x46] + seq(28, _ => 0);
      var cs := [Chunk([0x50, 0x52, 0x47, 0x30], 4, [1, 2, 3, 4]), Chunk([0x43, 0x48, 0x52, 0x30], 2, [5, 6])];
      Extract(preamble + StreamBytes(cs)) == Some(Extraction(Unif, None, [1, 2, 3, 4], [5, 6], [1, 2, 3, 4, 5, 6]))
  {
    var preamble: seq<byte> := [0x55, 0x4E, 0x49, 0x46] + seq(28, _ => 0);
    var prg := Chunk([0x50, 0x52, 0x47, 0x30], 4, [1, 2, 3, 4]);
    var chr := Chunk([0x43, 0x48, 0x52, 0x30], 2, [5, 6]);
    assert ChunkStream([prg, chr]);
    assert VersionSafeStr(preamble) == "UNI";
    UnifRoundTrip(preamble, [prg, chr]);
    PrgThenChrPayloads(prg, chr);
    assert [1, 2, 3, 4] + [5, 6] == [1, 2, 3, 4, 5, 6];
  }
}
