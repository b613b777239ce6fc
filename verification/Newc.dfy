/** The "newc" archive: the packer that writes an initramfs and the inspector that reads it back. */
module Newc {
  import opened Optional
  import opened ByteText

  const MAGIC: Bytes := [48, 55, 48, 55, 48, 49]                              // 070701
  const TRAILER: Bytes := [84, 82, 65, 73, 76, 69, 82, 33, 33, 33]            // TRAILER!!!
  const HEADER: nat := 110
  const WORD: nat := 0x1_0000_0000

  // ---------- hexadecimal fields ----------

  function Digit(d: nat): Byte
    requires d < 16
  {
    if d < 10 then 48 + d else 87 + d
  }

  function DigitValue(b: Byte): Option<nat> {
    if 48 <= b <= 57 then Some(b - 48)
    else if 97 <= b <= 102 then Some(b - 87)
    else if 65 <= b <= 70 then Some(b - 55)
    else None
  }

  /** Lower-case hexadecimal, zero-padded to at least `width` digits. */
  function Hex(n: nat, width: nat): (s: Bytes)
    ensures |s| >= width && |s| >= 1
    decreases n + width
  {
    if n < 16 && width <= 1 then [Digit(n)]
    else Hex(n / 16, if width > 0 then width - 1 else 0) + [Digit(n % 16)]
  }

  function ParseHex(s: Bytes): Option<nat> {
    if s == [] then Some(0) else
      match (ParseHex(s[..|s| - 1]), DigitValue(s[|s| - 1]))
      case (Some(v), Some(d)) => Some(16 * v + d)
      case _ => None
  }

  lemma {:induction false} HexRoundTrip(n: nat, width: nat)
    ensures ParseHex(Hex(n, width)) == Some(n)
    decreases n + width
  {
    var s := Hex(n, width);
    if n < 16 && width <= 1 {
      assert s[..0] == [];
    } else {
      HexRoundTrip(n / 16, if width > 0 then width - 1 else 0);
      assert s[..|s| - 1] == Hex(n / 16, if width > 0 then width - 1 else 0);
    }
  }

  function Pow16(k: nat): nat { if k == 0 then 1 else 16 * Pow16(k - 1) }

  /** A field keeps its width exactly when its value fits. */
  lemma {:induction false} HexWidth(n: nat, width: nat)
    requires width >= 1
    ensures |Hex(n, width)| == width <==> n < Pow16(width)
    decreases n + width
  {
    if n < 16 && width <= 1 {
      assert Pow16(1) == 16;
    } else if width >= 2 {
      HexWidth(n / 16, width - 1);
    } else {
      assert Pow16(1) == 16;
    }
  }

  lemma EightDigits()
    ensures Pow16(8) == WORD
  {
    assert Pow16(4) == 65536;
    assert Pow16(8) == 16 * (16 * (16 * (16 * Pow16(4))));
  }

  // ---------- writing ----------

  datatype File = File(name: Bytes, mode: nat, data: Bytes)

  /** The kind of a file is in four bits of its mode. */
  predicate IsDirectory(mode: nat) { mode / 0x1000 % 16 == 4 }

  function Align4(n: nat): nat { (n + 3) / 4 * 4 }

  function Zeros(n: nat): (s: Bytes)
    ensures |s| == n
  {
    seq(n, _ => 0)
  }

  function Fields(f: File, inode: nat, mtime: nat): (r: seq<nat>)
    ensures |r| == 13
  {
    [inode, f.mode, 0, 0, if IsDirectory(f.mode) then 2 else 1, mtime, |f.data|, 0, 0, 0, 0, |f.name| + 1, 0]
  }

  function HexAll(fields: seq<nat>): Bytes {
    if fields == [] then [] else HexAll(fields[..|fields| - 1]) + Hex(fields[|fields| - 1], 8)
  }

  function Header(f: File, inode: nat, mtime: nat): Bytes { MAGIC + HexAll(Fields(f, inode, mtime)) }

  /** Header, name and data laid out in an archive of length `at`; the padding is relative to the archive. */
  function Layout(at: nat, header: Bytes, name: Bytes, data: Bytes): Bytes {
    var named := header + name + [0];
    var body := named + Zeros(Align4(at + |named|) - (at + |named|)) + data;
    body + Zeros(Align4(at + |body|) - (at + |body|))
  }

  /** The bytes one entry adds to the archive. */
  function EntryBytes(at: nat, f: File, inode: nat, mtime: nat): Bytes {
    Layout(at, Header(f, inode, mtime), f.name, f.data)
  }

  const TRAILER_FILE := File(TRAILER, 0x8000, [])

  /** The archive after appending every file, numbered from one. */
  function Entries(files: seq<File>, mtime: nat): Bytes {
    if files == [] then [] else
      var before := Entries(files[..|files| - 1], mtime);
      before + EntryBytes(|before|, files[|files| - 1], |files|, mtime)
  }

  function Packed(files: seq<File>, mtime: nat): Bytes {
    var all := Entries(files + [TRAILER_FILE], mtime);
    all + Zeros((512 - |all| % 512) % 512)
  }

  class Archive {
    var bytes: Bytes

    constructor ()
      ensures bytes == []
    {
      bytes := [];
    }

    method AppendEntry(f: File, inode: nat, mtime: nat)
      modifies this
      ensures bytes == old(bytes) + EntryBytes(|old(bytes)|, f, inode, mtime)
    {
      hide Header;
      ghost var was := bytes;
      bytes := bytes + Header(f, inode, mtime);
      bytes := bytes + (f.name + [0]);
      assert bytes == was + (Header(f, inode, mtime) + f.name + [0]);
      bytes := bytes + Zeros(Align4(|bytes|) - |bytes|);
      bytes := bytes + f.data;
      bytes := bytes + Zeros(Align4(|bytes|) - |bytes|);
    }
  }

  /** The archive loop of the packer. */
  method Pack(files: seq<File>, mtime: nat) returns (archive: Archive)
    ensures fresh(archive) && archive.bytes == Packed(files, mtime)
  {
    hide EntryBytes;
    archive := new Archive();
    var inode := 1;
    for i := 0 to |files|
      invariant fresh(archive) && inode == i + 1
      invariant archive.bytes == Entries(files[..i], mtime)
    {
      archive.AppendEntry(files[i], inode, mtime);
      inode := inode + 1;
      assert files[..i + 1][..i] == files[..i];
    }
    assert files[..|files|] == files;
    archive.AppendEntry(TRAILER_FILE, inode, mtime);
    assert (files + [TRAILER_FILE])[..|files|] == files;
    archive.bytes := archive.bytes + Zeros((512 - |archive.bytes| % 512) % 512);
  }

  // ---------- reading ----------

  datatype Error = BadMagic | BadField | BadNameSize | NameNotTerminated | EntryExceedsArchive | NoTrailer

  type Dict = map<Bytes, Bytes>
  datatype Result = Ok(entries: Dict) | Err(error: Error)

  /** What one turn of the parser's loop finds at an offset. */
  datatype Step = Stop(error: Error) | End | Item(name: Bytes, data: Bytes, next: nat)

  function Field(archive: Bytes, offset: nat, index: nat): Option<nat>
    requires offset + HEADER <= |archive| && index < 13
  {
    ParseHex(archive[offset + 6 + index * 8..offset + 14 + index * 8])
  }

  predicate AllFieldsHex(archive: Bytes, offset: nat)
    requires offset + HEADER <= |archive|
  {
    forall index | 0 <= index < 13 :: Field(archive, offset, index).Some?
  }

  function ReadEntry(archive: Bytes, offset: nat): (s: Step)
    requires offset + HEADER <= |archive|
    ensures s.Item? ==> offset < s.next
  {
    if archive[offset..offset + 6] != MAGIC then Stop(BadMagic)
    else if !AllFieldsHex(archive, offset) then Stop(BadField)
    else
      var fileSize, nameSize := Field(archive, offset, 6).value, Field(archive, offset, 11).value;
      var nameStart := offset + HEADER;
      var nameEnd := nameStart + nameSize;
      if nameSize < 1 || nameEnd > |archive| then Stop(BadNameSize)
      else if archive[nameEnd - 1] != 0 then Stop(NameNotTerminated)
      else
        var name, dataStart := archive[nameStart..nameEnd - 1], Align4(nameEnd);
        var dataEnd := dataStart + fileSize;
        if dataEnd > |archive| then Stop(EntryExceedsArchive)
        else if name == TRAILER then End
        else Item(name, archive[dataStart..dataEnd], Align4(dataEnd))
  }

  function ParseFrom(archive: Bytes, offset: nat, entries: Dict): Result
    decreases |archive| - offset
  {
    if offset + HEADER > |archive| then Err(NoTrailer)
    else match ReadEntry(archive, offset)
      case Stop(error) => Err(error)
      case End => Ok(entries)
      case Item(name, data, next) => ParseFrom(archive, next, entries[name := data])
  }

  /** The thirteen fields of a header, if all of them are hexadecimal. */
  method ReadFields(archive: Bytes, offset: nat) returns (fields: Option<seq<nat>>)
    requires offset + HEADER <= |archive|
    ensures fields.Some? <==> AllFieldsHex(archive, offset)
    ensures fields.Some? ==> |fields.value| == 13
                             && forall index | 0 <= index < 13 :: Field(archive, offset, index) == Some(fields.value[index])
  {
    hide ParseHex;
    var read: seq<nat> := [];
    for index := 0 to 13
      invariant |read| == index && forall i | 0 <= i < index :: Field(archive, offset, i) == Some(read[i])
    {
      var v := ParseHex(archive[offset + 6 + index * 8..offset + 14 + index * 8]);
      if v.None? {
        assert Field(archive, offset, index).None?;
        return None;
      }
      read := read + [v.value];
    }
    return Some(read);
  }

  /** One turn: magic, fields, name and data, each checked before it is used. */
  method ReadEntryAt(archive: Bytes, offset: nat) returns (s: Step)
    requires offset + HEADER <= |archive|
    ensures s == ReadEntry(archive, offset)
  {
    hide ParseHex, AllFieldsHex;
    if archive[offset..offset + 6] != MAGIC {
      return Stop(BadMagic);
    }
    var fields := ReadFields(archive, offset);
    if fields.None? {
      return Stop(BadField);
    }
    var fileSize, nameSize := fields.value[6], fields.value[11];
    assert Field(archive, offset, 6) == Some(fileSize) && Field(archive, offset, 11) == Some(nameSize);
    var nameStart := offset + HEADER;
    var nameEnd := nameStart + nameSize;
    if nameSize < 1 || nameEnd > |archive| {
      return Stop(BadNameSize);
    }
    if archive[nameEnd - 1] != 0 {
      return Stop(NameNotTerminated);
    }
    var name, dataStart := archive[nameStart..nameEnd - 1], Align4(nameEnd);
    var dataEnd := dataStart + fileSize;
    if dataEnd > |archive| {
      return Stop(EntryExceedsArchive);
    }
    if name == TRAILER {
      return End;
    }
    return Item(name, archive[dataStart..dataEnd], Align4(dataEnd));
  }

  /** The inspector's loop; every read lies inside the archive. */
  method ParseNewc(archive: Bytes) returns (r: Result)
    ensures r == ParseFrom(archive, 0, map[])
  {
    hide ReadEntry;
    var entries: Dict := map[];
    var offset := 0;
    while offset + HEADER <= |archive|
      invariant ParseFrom(archive, 0, map[]) == ParseFrom(archive, offset, entries)
      decreases |archive| - offset
    {
      var step := ReadEntryAt(archive, offset);
      match step {
        case Stop(error) => return Err(error);
        case End => return Ok(entries);
        case Item(name, data, next) =>
          entries := entries[name := data];
          offset := next;
      }
    }
    return Err(NoTrailer);
  }

  // ---------- the round trip ----------

  predicate Fits(f: File, inode: nat, mtime: nat) {
    f.mode < WORD && inode < WORD && mtime < WORD && |f.data| < WORD && |f.name| + 1 < WORD
  }

  /** The header has its fixed length exactly when every field fits in eight digits. */
  lemma HeaderLength(f: File, inode: nat, mtime: nat)
    ensures |Header(f, inode, mtime)| >= HEADER
    ensures |Header(f, inode, mtime)| == HEADER <==> Fits(f, inode, mtime)
  {
    var fs := Fields(f, inode, mtime);
    HexAllLength(fs);
    assert Fits(f, inode, mtime) <==> forall i | 0 <= i < |fs| :: fs[i] < WORD by {
      if forall i | 0 <= i < |fs| :: fs[i] < WORD {
        assert fs[0] < WORD && fs[1] < WORD && fs[5] < WORD && fs[6] < WORD && fs[11] < WORD;
      }
    }
  }

  lemma FieldWidth(n: nat)
    ensures |Hex(n, 8)| >= 8
    ensures |Hex(n, 8)| == 8 <==> n < WORD
  {
    HexWidth(n, 8);
    EightDigits();
  }

  lemma {:induction false} HexAllLength(fs: seq<nat>)
    ensures |HexAll(fs)| >= 8 * |fs|
    ensures |HexAll(fs)| == 8 * |fs| <==> forall i | 0 <= i < |fs| :: fs[i] < WORD
  {
    hide Hex;
    if fs != [] {
      var n := |fs| - 1;
      HexAllLength(fs[..n]);
      FieldWidth(fs[n]);
      assert forall i | 0 <= i < n :: fs[..n][i] == fs[i];
    }
  }

  lemma {:induction false} HexAllAt(fs: seq<nat>, i: nat)
    requires i < |fs| && forall j | 0 <= j < |fs| :: fs[j] < WORD
    ensures |HexAll(fs)| == 8 * |fs| && HexAll(fs)[8 * i..8 * i + 8] == Hex(fs[i], 8)
  {
    HexAllLength(fs);
    var n := |fs| - 1;
    HexAllLength(fs[..n]);
    var head := HexAll(fs[..n]);
    assert |head| == 8 * n;
    if i < n {
      HexAllAt(fs[..n], i);
      assert HexAll(fs)[8 * i..8 * i + 8] == head[8 * i..8 * i + 8];
    } else {
      assert HexAll(fs)[8 * n..8 * n + 8] == Hex(fs[n], 8);
    }
  }

  lemma HeaderField(archive: Bytes, offset: nat, f: File, inode: nat, mtime: nat, i: nat)
    requires Fits(f, inode, mtime) && offset + HEADER <= |archive| && i < 13
    requires archive[offset..offset + HEADER] == Header(f, inode, mtime)
    ensures Field(archive, offset, i) == Some(Fields(f, inode, mtime)[i])
  {
    hide Hex, ParseHex;
    var h, fs := archive[offset..offset + HEADER], Fields(f, inode, mtime);
    HexAllAt(fs, i);
    HexRoundTrip(fs[i], 8);
    assert h[6..] == HexAll(fs);
    Slice(archive, offset, h, 6 + i * 8, 14 + i * 8);
    Slice(h, 6, h[6..], 8 * i, 8 * i + 8);
  }

  lemma HeaderFields(archive: Bytes, offset: nat, f: File, inode: nat, mtime: nat)
    requires Fits(f, inode, mtime) && offset + HEADER <= |archive|
    requires archive[offset..offset + HEADER] == Header(f, inode, mtime)
    ensures archive[offset..offset + 6] == MAGIC
    ensures forall i | 0 <= i < 13 :: Field(archive, offset, i) == Some(Fields(f, inode, mtime)[i])
  {
    hide HexAll, Field, Fields;
    assert archive[offset..offset + 6] == archive[offset..offset + HEADER][..6];
    forall i | 0 <= i < 13 ensures Field(archive, offset, i) == Some(Fields(f, inode, mtime)[i]) {
      HeaderField(archive, offset, f, inode, mtime, i);
    }
  }

  /** Where the parts of a layout lie. */
  lemma LayoutSlices(at: nat, header: Bytes, name: Bytes, data: Bytes)
    requires |header| == HEADER
    ensures var e, n := Layout(at, header, name, data), |name|;
            var d := Align4(at + HEADER + n + 1) - at;
            && at + |e| == Align4(at + d + |data|) && HEADER + n + 1 <= d && d + |data| <= |e|
            && e[..HEADER] == header && e[HEADER..HEADER + n] == name && e[HEADER + n] == 0 && e[d..d + |data|] == data
  {}

  /** The same, seen from inside an archive. */
  lemma LayoutParts(archive: Bytes, at: nat, header: Bytes, name: Bytes, data: Bytes)
    requires |header| == HEADER
    requires var e := Layout(at, header, name, data); at + |e| <= |archive| && archive[at..at + |e|] == e
    ensures var nameEnd := at + HEADER + |name| + 1;
            var dataStart := Align4(nameEnd);
            && nameEnd <= |archive| && dataStart + |data| <= |archive|
            && archive[at..at + HEADER] == header
            && archive[at + HEADER..nameEnd - 1] == name && archive[nameEnd - 1] == 0
            && archive[dataStart..dataStart + |data|] == data
            && at + |Layout(at, header, name, data)| == Align4(dataStart + |data|)
  {
    var e := Layout(at, header, name, data);
    var n, nameEnd := |name|, at + HEADER + |name| + 1;
    var d := Align4(nameEnd) - at;
    LayoutSlices(at, header, name, data);
    hide Layout, Zeros;
    Slice(archive, at, e, 0, HEADER);
    Slice(archive, at, e, HEADER, HEADER + n);
    Slice(archive, at, e, d, d + |data|);
    assert archive[at..at + |e|][HEADER + n] == archive[at + HEADER + n];
  }

  lemma Slice(archive: Bytes, offset: nat, e: Bytes, lo: nat, hi: nat)
    requires offset + |e| <= |archive| && archive[offset..offset + |e|] == e && lo <= hi <= |e|
    ensures archive[offset + lo..offset + hi] == e[lo..hi]
  {
    var whole := archive[offset..offset + |e|];
    forall k | 0 <= k < hi - lo ensures archive[offset + lo..offset + hi][k] == whole[lo..hi][k] {
      assert whole[lo + k] == archive[offset + (lo + k)];
    }
    assert archive[offset + lo..offset + hi] == whole[lo..hi];
  }

  /** Reading where an entry was written finds it and steps to the end of its padding. */
  lemma ReadsBack(archive: Bytes, offset: nat, f: File, inode: nat, mtime: nat)
    requires Fits(f, inode, mtime)
    requires var e := EntryBytes(offset, f, inode, mtime);
             offset + |e| <= |archive| && archive[offset..offset + |e|] == e
    ensures offset + HEADER <= |archive|
    ensures ReadEntry(archive, offset)
         == if f.name == TRAILER then End
            else Item(f.name, f.data, offset + |EntryBytes(offset, f, inode, mtime)|)
  {
    hide Layout, HexAll, Field, Header;
    HeaderLength(f, inode, mtime);
    LayoutParts(archive, offset, Header(f, inode, mtime), f.name, f.data);
    HeaderFields(archive, offset, f, inode, mtime);
  }

  predicate AllFit(files: seq<File>, mtime: nat) {
    forall i | 0 <= i < |files| :: Fits(files[i], i + 1, mtime)
  }

  /** The name-to-contents map of a list of files; a later file replaces an earlier one. */
  function Contents(files: seq<File>): Dict {
    if files == [] then map[] else Contents(files[..|files| - 1])[files[|files| - 1].name := files[|files| - 1].data]
  }

  lemma ContentsSnoc(files: seq<File>, k: nat)
    requires k < |files|
    ensures Contents(files[..k + 1]) == Contents(files[..k])[files[k].name := files[k].data]
  {
    assert files[..k + 1][..k] == files[..k];
  }

  lemma {:induction false} EntriesPrefix(files: seq<File>, mtime: nat, k: nat)
    requires k <= |files|
    ensures |Entries(files[..k], mtime)| <= |Entries(files, mtime)|
    ensures Entries(files, mtime)[..|Entries(files[..k], mtime)|] == Entries(files[..k], mtime)
  {
    hide EntryBytes;
    if k == |files| {
      assert files[..k] == files;
    } else {
      var n := |files| - 1;
      var before := Entries(files[..n], mtime);
      EntriesPrefix(files[..n], mtime, k);
      assert files[..n][..k] == files[..k];
      assert Entries(files, mtime)[..|before|] == before;
    }
  }

  /** Parsing a packed list from its k-th entry on, with the first k already collected. */
  lemma {:induction false} ParsesFrom(archive: Bytes, files: seq<File>, mtime: nat, k: nat)
    requires AllFit(files, mtime) && Entries(files, mtime) <= archive
    requires k < |files| && forall i | 0 <= i < k :: files[i].name != TRAILER
    requires exists i :: k <= i < |files| && files[i].name == TRAILER
    ensures var i := FirstTrailer(files);
            ParseFrom(archive, |Entries(files[..k], mtime)|, Contents(files[..k])) == Ok(Contents(files[..i]))
    decreases |files| - k
  {
    hide EntryBytes, Fits, Contents, ReadEntry;
    var at := |Entries(files[..k], mtime)|;
    ContentsSnoc(files, k);
    EntryInPlace(archive, files, mtime, k);
    ReadsBack(archive, at, files[k], k + 1, mtime);
    if files[k].name == TRAILER {
      FirstTrailerIs(files, k);
    } else {
      ParsesFrom(archive, files, mtime, k + 1);
    }
  }

  lemma EntryInPlace(archive: Bytes, files: seq<File>, mtime: nat, k: nat)
    requires Entries(files, mtime) <= archive && k < |files|
    ensures var at := |Entries(files[..k], mtime)|;
            var e := EntryBytes(at, files[k], k + 1, mtime);
            && at + |e| <= |archive| && archive[at..at + |e|] == e
            && |Entries(files[..k + 1], mtime)| == at + |e|
  {
    hide EntryBytes;
    EntriesPrefix(files, mtime, k + 1);
    assert files[..k + 1][..k] == files[..k];
    var at, whole := |Entries(files[..k], mtime)|, Entries(files[..k + 1], mtime);
    var e := EntryBytes(at, files[k], k + 1, mtime);
    assert whole[at..at + |e|] == e;
    assert archive[..|whole|] == whole;
    assert archive[at..at + |e|] == whole[at..at + |e|];
  }

  /** Position of the first file carrying the trailer's name. */
  function FirstTrailer(files: seq<File>): (i: nat)
    ensures i <= |files|
    ensures forall j | 0 <= j < i :: files[j].name != TRAILER
    ensures i < |files| ==> files[i].name == TRAILER
  {
    if files == [] || files[0].name == TRAILER then 0 else 1 + FirstTrailer(files[1..])
  }

  lemma FirstTrailerIs(files: seq<File>, k: nat)
    requires k < |files| && files[k].name == TRAILER && forall i | 0 <= i < k :: files[i].name != TRAILER
    ensures FirstTrailer(files) == k
  {
    var i := FirstTrailer(files);
    assert i < |files|;
  }

  lemma {:induction false} NamesInContents(files: seq<File>, name: Bytes)
    ensures name in Contents(files) <==> exists i :: 0 <= i < |files| && files[i].name == name
  {
    if files != [] {
      var n := |files| - 1;
      NamesInContents(files[..n], name);
      if i :| 0 <= i < |files| && files[i].name == name && i < n {
        assert files[..n][i].name == name;
      }
      assert forall i | 0 <= i < n :: files[..n][i] == files[i];
      assert files[n].name == name ==> name in Contents(files);
    }
  }

  /** Reading back a packed list gives exactly its names and contents, if and only if no file is itself
      named like the trailer. */
  lemma RoundTrip(files: seq<File>, mtime: nat)
    requires AllFit(files + [TRAILER_FILE], mtime)
    ensures ParseFrom(Packed(files, mtime), 0, map[]) == Ok(Contents(files))
       <==> forall i | 0 <= i < |files| :: files[i].name != TRAILER
  {
    hide Fits, ParseFrom, EntryBytes;
    var all := files + [TRAILER_FILE];
    assert all[|files|].name == TRAILER;
    assert all[..0] == [];
    ParsesFrom(Packed(files, mtime), all, mtime, 0);
    var i := FirstTrailer(all);
    if i == |files| {
      assert all[..i] == files;
    } else {
      assert all[i] == files[i];
      NamesInContents(files, TRAILER);
      NamesInContents(all[..i], TRAILER);
    }
    assert forall j | 0 <= j < |files| :: all[j] == files[j];
  }
}
