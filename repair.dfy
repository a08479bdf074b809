/**
 * The per-file decisions of walk_dirs in nes_header_repair.py: which files
 * are looked at, what a database lookup leads to, how a file without a
 * database entry is renamed, and how an FDS disk image loses its header.
 *
 * The SHA-1 hex digest is a parameter `digest`; the database is a map from
 * upper-case digests to the headers make_header produced. File system
 * effects are returned as an action instead of being performed.
 */
module Repair {
  import opened Bits
  import opened Container
  import opened HeaderSynth

  function LowerChar(c: char): char
  {
    if 'A' <= c <= 'Z' then (c as int + 32) as char else c
  }

  function UpperChar(c: char): char
  {
    if 'a' <= c <= 'z' then (c as int - 32) as char else c
  }

  /** str.lower on ASCII letters. */
  function Lower(s: string): (r: string)
    ensures |r| == |s| && forall i | 0 <= i < |s| :: r[i] == LowerChar(s[i])
  {
    seq(|s|, i requires 0 <= i < |s| => LowerChar(s[i]))
  }

  /** str.upper on ASCII letters. */
  function Upper(s: string): (r: string)
    ensures |r| == |s| && forall i | 0 <= i < |s| :: r[i] == UpperChar(s[i])
  {
    seq(|s|, i requires 0 <= i < |s| => UpperChar(s[i]))
  }

  predicate OccursAt(s: string, sub: string, i: int)
  {
    0 <= i && i + |sub| <= |s| && s[i..i + |sub|] == sub
  }

  function RFindFrom(s: string, sub: string, i: int): (r: int)
    ensures r == -1 || (r <= i && OccursAt(s, sub, r))
    ensures forall j | r < j <= i :: !OccursAt(s, sub, j)
    decreases if i < 0 then 0 else i + 1
  {
    if i < 0 then -1
    else if OccursAt(s, sub, i) then i
    else RFindFrom(s, sub, i - 1)
  }

  /** str.rfind: the highest index at which `sub` occurs in `s`, or -1. */
  function RFind(s: string, sub: string): (r: int)
    ensures r == -1 || OccursAt(s, sub, r)
    ensures forall j | r < j :: !OccursAt(s, sub, j)
  {
    RFindFrom(s, sub, |s| - |sub|)
  }

  /**
   * The file-name test `file.lower().rfind(ext) > 0`: the extension occurs
   * somewhere after the first character, not necessarily at the end.
   */
  function HasExtension(file: string, ext: string): (found: bool)
    ensures found <==> exists i :: 0 < i && OccursAt(Lower(file), ext, i)
  {
    RFind(Lower(file), ext) > 0
  }

  /** The last four characters of the path, lower-cased, are ".unh". */
  predicate HasUnhSuffix(path: string)
  {
    |path| >= 4 && Lower(path[|path| - 4..]) == ".unh"
  }

  /** The rename given to a UNIF or header-less file that is not in the database. */
  function MarkUnheadered(path: string): (r: string)
    ensures HasUnhSuffix(r)
    ensures |r| >= |path| && r[..|path|] == path
    ensures r == path <==> HasUnhSuffix(path)
    ensures !HasUnhSuffix(path) ==> r == path + ".unh"
  {
    if HasUnhSuffix(path) then path else path + ".unh"
  }

  /** Every header in the database is a sixteen-byte header with the "NES\x1A" magic. */
  predicate HeaderTable(table: map<string, seq<byte>>)
  {
    forall k | k in table :: IsNesHeader(table[k])
  }

  /** The database key of a file: the upper-cased hex digest of the hashed bytes. */
  function Key(x: Extraction, digest: seq<byte> -> string): string
  {
    Upper(digest(x.hashed))
  }

  datatype Action =
    | WriteHeader(header: seq<byte>, body: seq<byte>)  // the file becomes header + body
    | NoChange                                         // the file already has the database header
    | Unmatched(path: string, rewrite: Option<seq<byte>>)  // not in the database: the path after marking, and the bytes a UNIF file is cut down to

  /** The try/except block after hashing, with every switch set to act. */
  function Decide(x: Extraction, fullname: string, table: map<string, seq<byte>>,
                  digest: seq<byte> -> string): (a: Action)
    ensures !a.Unmatched? <==> Key(x, digest) in table
    ensures a.NoChange? <==> Key(x, digest) in table && x.header == Some(table[Key(x, digest)])
    ensures a.WriteHeader? ==> a.header == table[Key(x, digest)] && x.header != Some(a.header)
    ensures a.Unmatched? ==>
      && (a.path == fullname <==> x.shape == INes || HasUnhSuffix(fullname))
      && (x.shape != INes ==> HasUnhSuffix(a.path))
      && (a.rewrite.Some? <==> x.shape == Unif)
      && (a.rewrite.Some? ==> a.rewrite.value == x.prgrom + x.chrrom)
      && (x.shape != INes ==> a.path == MarkUnheadered(fullname))
  {
    var key := Key(x, digest);
    if key in table then
      var hstring := table[key];
      if x.header != Some(hstring) then
        if x.shape == Unif then WriteHeader(hstring, x.prgrom + x.chrrom)
        else WriteHeader(hstring, x.prgrom)
      else NoChange
    else
      var path := if x.shape != INes then MarkUnheadered(fullname) else fullname;
      Unmatched(path, if x.shape == Unif then Some(x.prgrom + x.chrrom) else None)
  }

  /** A `.nes` file: read it, then decide. None where Python raises IndexError. */
  function ProcessNes(fullname: string, data: seq<byte>, table: map<string, seq<byte>>,
                      digest: seq<byte> -> string): (r: Option<Action>)
    ensures r.Some? <==> Extract(data).Some?
    ensures |data| < 3 ==> r == None
    ensures HeaderTable(table) && r.Some? && r.value.WriteHeader? ==> IsNesHeader(r.value.header)
  {
    match Extract(data)
    case None => None
    case Some(x) => Some(Decide(x, fullname, table, digest))
  }

  /**
   * What a rewrite writes: the database header, then the PRG content, then
   * the CHR content. For an iNES file that is the old content behind a new
   * header; for a header-less file, the whole old file behind a header.
   */
  lemma {:induction false} RewriteLayout(fullname: string, data: seq<byte>, table: map<string, seq<byte>>,
                      digest: seq<byte> -> string)
    requires ProcessNes(fullname, data, table, digest).Some?
    requires ProcessNes(fullname, data, table, digest).value.WriteHeader?
    ensures var x := Extract(data).value;
      var a := ProcessNes(fullname, data, table, digest).value;
      && a.body == x.prgrom + x.chrrom
      && (x.shape == INes ==> a.body == data[Min(16, |data|)..])
      && (x.shape == Unheadered ==> a.body == data)
      && multiset(a.body) == multiset(x.hashed)
  {
    var x := Extract(data).value;
    HashCoversContent(data);
    if x.shape != Unif {
      NonUnifContent(data);
      assert x.prgrom + [] == x.prgrom;
    }
  }

  /** The hash input is the content in the order a rewrite writes it. */
  predicate HashedAsWritten(data: seq<byte>)
  {
    Extract(data).Some? && Extract(data).value.hashed == Extract(data).value.prgrom + Extract(data).value.chrrom
  }

  /**
   * A rewritten file needs no second rewrite: read again, it is an iNES
   * file with the database header and the same hash input, so the next run
   * finds it unchanged.
   */
  lemma {:induction false} RewriteThenNoChange(fullname: string, data: seq<byte>, table: map<string, seq<byte>>,
                            digest: seq<byte> -> string, header: seq<byte>, body: seq<byte>)
    requires HeaderTable(table) && HashedAsWritten(data)
    requires ProcessNes(fullname, data, table, digest) == Some(WriteHeader(header, body))
    ensures Extract(header + body) == Some(Extraction(INes, Some(header), body, [], body))
    ensures ProcessNes(fullname, header + body, table, digest) == Some(NoChange)
  {
    var x := Extract(data).value;
    RewriteLayout(fullname, data, table, digest);
    var key := Key(x, digest);
    assert IsNesHeader(header);
    var file := header + body;
    assert file[..16] == header;
    assert file[16..] == body;
    assert file[..3] == header[..3] == [0x4E, 0x45, 0x53] by {
      assert header[..4] == [0x4E, 0x45, 0x53, 0x1A];
      assert header[..3] == header[..4][..3];
    }
    VersionSafeStrPrefix(file[..16], [0x4E, 0x45, 0x53]);
    assert VersionSafeStr([0x4E, 0x45, 0x53]) == "NES";
    var y := Extraction(INes, Some(header), body, [], body);
    assert Extract(file) == Some(y);
    assert Key(y, digest) == key;
  }

  /** Every iNES or header-less file hashes its content in written order. */
  lemma {:induction false} NonUnifHashedAsWritten(data: seq<byte>)
    requires |data| >= 3 && VersionSafeStr(data) != "UNI"
    ensures HashedAsWritten(data)
  {
    NonUnifContent(data);
    assert Extract(data).value.prgrom + [] == Extract(data).value.prgrom;
  }

  /** A UNIF file whose PRG chunks all come before its CHR chunks hashes its content in written order. */
  lemma {:induction false} UnifHashedAsWritten(preamble: seq<byte>, cs: seq<Chunk>)
    requires |preamble| == 32 && VersionSafeStr(preamble) == "UNI"
    requires ChunkStream(cs) && PrgBeforeChr(cs)
    ensures HashedAsWritten(preamble + StreamBytes(cs))
  {
    UnifRoundTrip(preamble, cs);
    RomPayloadsInOrder(cs);
  }

  /**
   * A header-less dump of a 32 KiB PRG / 8 KiB CHR cartridge whose digest
   * is in the database gets the header 4E 45 53 1A 02 01 00 08 and eight
   * zero bytes, followed by the whole original file.
   */
  lemma {:induction false} HeaderlessCartridgeGetsHeader(fullname: string, data: seq<byte>, digest: seq<byte> -> string)
    requires |data| >= 3 && VersionSafeStr(data) != "NES" && VersionSafeStr(data) != "UNI"
    ensures var rec := Record(32768, 0, 0, 8192, 0, 0, 0, 0, 0, 0, 0, 0, "H", 0, 0, 0);
      var table := map[Upper(digest(data)) := MakeHeader(rec, true).value];
      ProcessNes(fullname, data, table, digest)
      == Some(WriteHeader([0x4E, 0x45, 0x53, 0x1A, 0x02, 0x01, 0x00, 0x08, 0, 0, 0, 0, 0, 0, 0, 0], data))
  {
    PlainCartridgeHeader();
    NonUnifContent(data);
  }

  /** What becomes of a `.fds` file. */
  datatype FdsAction =
    | LeaveAlone               // neither "FDS" nor "NES" at the start: skipped
    | WriteDisk(disk: seq<byte>)  // the file is rewritten as the bytes after its first sixteen

  /** The `.fds` branch of walk_dirs. None where Python raises IndexError. */
  function FdsStrip(data: seq<byte>): (r: Option<FdsAction>)
    ensures r.Some? <==> |data| >= 3
    ensures r.Some? ==> (r.value.WriteDisk? <==> VersionSafeStr(data) in {"FDS", "NES"})
    ensures r.Some? && r.value.WriteDisk? ==>
      var n := |data| - |r.value.disk|;
      n == Min(16, |data|) && data[..n] + r.value.disk == data
  {
    if |data| < 3 then None
    else
      var first := Min(16, |data|);
      VersionSafeStrPrefix(data[..first], data);
      assert data[..first] + data[first..] == data;
      var headerId := VersionSafeStr(data[..first]);
      if headerId != "FDS" && headerId != "NES" then Some(LeaveAlone)
      else Some(WriteDisk(data[first..]))
  }

  /** The `.fds` branch over a cursor: read sixteen bytes, check the tag, read the rest. */
  method StripFdsHeader(contents: seq<byte>) returns (r: Option<FdsAction>)
    ensures r == FdsStrip(contents)
  {
    var romfile := new RomFile(contents);
    var buf := romfile.Read(16);
    if |buf| < 3 {
      return None;
    }
    var headerId := VersionSafeStr(buf);
    if headerId != "FDS" && headerId != "NES" {
      return Some(LeaveAlone);
    }
    var diskdata := ReadRemainder(romfile, buf);
    return Some(WriteDisk(diskdata));
  }

  datatype Outcome = NesFile(action: Action) | FdsFile(fds: FdsAction) | Ignored

  /**
   * One file of the directory walk: `file` is its name, `fullname` its
   * path. The `.nes` test comes first, so a name matching both is a `.nes`
   * file.
   */
  function ProcessFile(fullname: string, file: string, data: seq<byte>,
                       table: map<string, seq<byte>>, digest: seq<byte> -> string): (r: Option<Outcome>)
    ensures r == Some(Ignored) <==> !HasExtension(file, ".nes") && !HasExtension(file, ".fds")
    ensures r.Some? && r.value.NesFile? <==> HasExtension(file, ".nes") && Extract(data).Some?
    ensures r.Some? && r.value.FdsFile? <==> !HasExtension(file, ".nes") && HasExtension(file, ".fds") && |data| >= 3
  {
    if HasExtension(file, ".nes") then
      match ProcessNes(fullname, data, table, digest)
      case None => None
      case Some(a) => Some(NesFile(a))
    else if HasExtension(file, ".fds") then
      match FdsStrip(data)
      case None => None
      case Some(f) => Some(FdsFile(f))
    else Some(Ignored)
  }

  /** A file marked ".unh" by an earlier run is still a `.nes` file to later runs. */
  lemma {:induction false} MarkedNameStillExamined(file: string)
    requires HasExtension(file, ".nes")
    ensures HasExtension(MarkUnheadered(file), ".nes")
  {
    var i :| 0 < i && OccursAt(Lower(file), ".nes", i);
    var marked := MarkUnheadered(file);
    assert Lower(marked)[i..i + 4] == Lower(file)[i..i + 4];
    assert OccursAt(Lower(marked), ".nes", i);
  }
}
