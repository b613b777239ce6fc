/** The archive byte by byte, as an unpacker that knows nothing of the packer finds it, and what cutting it short does. */
module NewcLayout {
  import opened Optional
  import opened ByteText
  import opened Newc
  import Arithmetic

  // ---------- the digits of a field ----------

  /** What one digit counts in each of the eight places. */
  const PLACES: seq<nat> := [0x1000_0000, 0x100_0000, 0x10_0000, 0x1_0000, 0x1000, 0x100, 0x10, 1]

  /** Eight lower-case hexadecimal digits of a number, the highest first. */
  predicate ShowsHex(s: Bytes, n: nat) {
    |s| == 8 && forall i | 0 <= i < 8 :: s[i] == "0123456789abcdef"[n / PLACES[i] % 16] as int
  }

  lemma DigitShown(d: nat)
    requires d < 16
    ensures Digit(d) == "0123456789abcdef"[d] as int
  {}

  lemma DivideTwice(n: nat, p: nat)
    requires p > 0
    ensures n / 16 / p == n / (16 * p)
  {
    var q := n / 16 / p;
    var a, r := n / 16 % p, n % 16;
    assert n / 16 == p * q + a && n == 16 * (n / 16) + r;
    assert n == 16 * p * q + (16 * a + r);
    assert 16 * p * q == (16 * p) * q;
    Arithmetic.ModUnique(n, 16 * p, q, 16 * a + r);
  }

  lemma {:induction false} HexDigitAt(n: nat, width: nat, i: nat)
    requires width >= 1 && n < Pow16(width) && i < width
    ensures |Hex(n, width)| == width && Pow16(width - 1 - i) > 0
    ensures Hex(n, width)[i] == Digit(n / Pow16(width - 1 - i) % 16)
    decreases width
  {
    HexWidth(n, width);
    PowerPositive(width - 1 - i);
    if width == 1 {
      assert n < 16 && Pow16(0) == 1;
    } else {
      HexWidth(n / 16, width - 1);
      if i == width - 1 {
        assert Pow16(0) == 1;
      } else {
        HexDigitAt(n / 16, width - 1, i);
        DivideTwice(n, Pow16(width - 2 - i));
      }
    }
  }

  lemma {:induction false} PowerPositive(k: nat)
    ensures Pow16(k) > 0
  {
    if k > 0 { PowerPositive(k - 1); }
  }

  lemma PlacesArePowers(i: nat)
    requires i < 8
    ensures PLACES[i] == Pow16(7 - i)
  {
    assert Pow16(1) == 16 && Pow16(2) == 256;
    assert Pow16(3) == 4096 && Pow16(4) == 65536;
    assert Pow16(5) == 16 * Pow16(4) && Pow16(6) == 16 * Pow16(5) && Pow16(7) == 16 * Pow16(6);
  }

  lemma HexShows(n: nat)
    requires n < 0x1_0000_0000
    ensures ShowsHex(Hex(n, 8), n)
  {
    hide Hex, Pow16, Digit;
    EightDigits();
    HexDigitAt(n, 8, 0);
    forall i | 0 <= i < 8 ensures Hex(n, 8)[i] == "0123456789abcdef"[n / PLACES[i] % 16] as int {
      PlacesArePowers(i);
      HexDigitAt(n, 8, i);
      DigitShown(n / PLACES[i] % 16);
    }
  }

  // ---------- where everything stands ----------

  predicate IsText(s: Bytes, text: string) { |s| == |text| && forall i | 0 <= i < |s| :: s[i] == text[i] as int }

  predicate AllZero(s: Bytes) { forall i | 0 <= i < |s| :: s[i] == 0 }

  /** Fewer than `n` zero bytes from a position up to the next multiple of n. */
  predicate Padded(archive: Bytes, from: nat, to: nat, n: nat)
    requires n > 0
  {
    from <= to < from + n && to % n == 0 && to <= |archive| && AllZero(archive[from..to])
  }

  /** Field j of the header at a position. */
  function Digits(archive: Bytes, at: nat, j: nat): Bytes
    requires at + 110 <= |archive| && j < 13
  {
    archive[at + 6 + 8 * j..at + 14 + 8 * j]
  }

  /** A header: the magic, then inode, mode, owner, group, links, time, size, four device numbers, name size and checksum. */
  predicate HeaderStands(archive: Bytes, at: nat, inode: nat, f: File, mtime: nat)
    requires at + 110 <= |archive|
  {
    && IsText(archive[at..at + 6], "070701")
    && ShowsHex(Digits(archive, at, 0), inode) && ShowsHex(Digits(archive, at, 1), f.mode)
    && ShowsHex(Digits(archive, at, 2), 0) && ShowsHex(Digits(archive, at, 3), 0)
    && ShowsHex(Digits(archive, at, 4), if f.mode / 4096 % 16 == 4 then 2 else 1) && ShowsHex(Digits(archive, at, 5), mtime)
    && ShowsHex(Digits(archive, at, 6), |f.data|)
    && ShowsHex(Digits(archive, at, 7), 0) && ShowsHex(Digits(archive, at, 8), 0)
    && ShowsHex(Digits(archive, at, 9), 0) && ShowsHex(Digits(archive, at, 10), 0)
    && ShowsHex(Digits(archive, at, 11), |f.name| + 1) && ShowsHex(Digits(archive, at, 12), 0)
  }

  /** The next multiple of four. */
  function NextMultiple(n: nat): nat { n + (4 - n % 4) % 4 }

  /** An entry from `at` up to `end`: header, name and NUL, padding, data, padding. */
  predicate EntryStands(archive: Bytes, at: nat, end: nat, inode: nat, f: File, mtime: nat) {
    var named := at + 111 + |f.name|;
    var d := NextMultiple(named);
    && named <= |archive| && HeaderStands(archive, at, inode, f, mtime)
    && archive[at + 110..named - 1] == f.name && archive[named - 1] == 0
    && Padded(archive, named, d, 4)
    && d + |f.data| <= end <= |archive| && archive[d..d + |f.data|] == f.data && Padded(archive, d + |f.data|, end, 4)
  }

  lemma DigitsShow(archive: Bytes, at: nat, f: File, inode: nat, mtime: nat, j: nat)
    requires Newc.Fits(f, inode, mtime) && at + HEADER <= |archive| && j < 13
    requires archive[at..at + HEADER] == Header(f, inode, mtime)
    ensures Fields(f, inode, mtime)[j] < 0x1_0000_0000 && ShowsHex(Digits(archive, at, j), Fields(f, inode, mtime)[j])
  {
    hide Hex, ShowsHex;
    var h, fs := archive[at..at + HEADER], Fields(f, inode, mtime);
    HexAllAt(fs, j);
    HexShows(fs[j]);
    assert h[6..] == HexAll(fs);
    Slice(archive, at, h, 6 + j * 8, 14 + j * 8);
    Slice(h, 6, h[6..], 8 * j, 8 * j + 8);
  }

  lemma MagicIs(s: Bytes)
    requires s == MAGIC
    ensures IsText(s, "070701")
  {}

  lemma HeaderIsThere(archive: Bytes, at: nat, f: File, inode: nat, mtime: nat)
    requires Newc.Fits(f, inode, mtime) && at + HEADER <= |archive|
    requires archive[at..at + HEADER] == Header(f, inode, mtime)
    ensures HeaderStands(archive, at, inode, f, mtime)
  {
    hide Newc.Fits, Header, ShowsHex, Digits, IsText;
    HeaderFields(archive, at, f, inode, mtime);
    MagicIs(archive[at..at + 6]);
    forall j | 0 <= j < 13 ensures ShowsHex(Digits(archive, at, j), Fields(f, inode, mtime)[j]) {
      DigitsShow(archive, at, f, inode, mtime, j);
    }
  }

  lemma Aligned(n: nat)
    ensures Align4(n) == NextMultiple(n) && Align4(n) % 4 == 0 && n <= Align4(n) < n + 4
  {}

  /** The two runs of padding in a layout. */
  lemma LayoutZeros(at: nat, header: Bytes, name: Bytes, data: Bytes)
    requires |header| == HEADER
    ensures var e, n := Layout(at, header, name, data), HEADER + |name| + 1;
            var d := Align4(at + n) - at;
            n <= d && d + |data| <= |e| && AllZero(e[n..d]) && AllZero(e[d + |data|..])
  {
    var named := header + name + [0];
    var e, n := Layout(at, header, name, data), |named|;
    var d := Align4(at + n) - at;
    var body := named + Zeros(d - n) + data;
    assert e == body + Zeros(Align4(at + |body|) - (at + |body|));
    assert e[n..d] == Zeros(d - n);
    assert e[d + |data|..] == Zeros(Align4(at + |body|) - (at + |body|));
  }

  lemma EntryIsThere(archive: Bytes, at: nat, f: File, inode: nat, mtime: nat)
    requires Newc.Fits(f, inode, mtime)
    requires var e := EntryBytes(at, f, inode, mtime); at + |e| <= |archive| && archive[at..at + |e|] == e
    ensures EntryStands(archive, at, at + |EntryBytes(at, f, inode, mtime)|, inode, f, mtime)
  {
    hide Layout, Header, HeaderStands, NextMultiple, Align4, Padded, Newc.Fits;
    var h := Header(f, inode, mtime);
    HeaderLength(f, inode, mtime);
    LayoutParts(archive, at, h, f.name, f.data);
    HeaderIsThere(archive, at, f, inode, mtime);
    PaddingsStand(archive, at, h, f.name, f.data);
    LayoutEnds(at, h, f.name, f.data);
    Aligned(at + HEADER + |f.name| + 1);
    Aligned(Align4(at + HEADER + |f.name| + 1) + |f.data|);
  }

  lemma PaddingsStand(archive: Bytes, at: nat, header: Bytes, name: Bytes, data: Bytes)
    requires |header| == HEADER
    requires var e := Layout(at, header, name, data); at + |e| <= |archive| && archive[at..at + |e|] == e
    ensures var named, end := at + HEADER + |name| + 1, at + |Layout(at, header, name, data)|;
            Padded(archive, named, Align4(named), 4) && Padded(archive, Align4(named) + |data|, end, 4)
  {
    hide Layout, Align4, AllZero, Padded, NextMultiple;
    LayoutZeros(at, header, name, data);
    LayoutEnds(at, header, name, data);
    var e, named := Layout(at, header, name, data), at + HEADER + |name| + 1;
    Aligned(named);
    Aligned(Align4(named) + |data|);
    PaddingStands(archive, at, e, named - at, Align4(named) - at);
    assert e[Align4(named) - at + |data|..] == e[Align4(named) - at + |data|..|e|];
    PaddingStands(archive, at, e, Align4(named) - at + |data|, |e|);
  }

  lemma LayoutEnds(at: nat, header: Bytes, name: Bytes, data: Bytes)
    requires |header| == HEADER
    ensures at + |Layout(at, header, name, data)| == Align4(Align4(at + HEADER + |name| + 1) + |data|)
  {
    LayoutSlices(at, header, name, data);
  }

  lemma PaddingStands(archive: Bytes, at: nat, e: Bytes, lo: nat, hi: nat)
    requires at + |e| <= |archive| && archive[at..at + |e|] == e && lo <= hi <= |e| && AllZero(e[lo..hi])
    requires hi < lo + 4 && (at + hi) % 4 == 0
    ensures Padded(archive, at + lo, at + hi, 4)
  {
    Slice(archive, at, e, lo, hi);
  }

  /** The k-th file of a packed list stands in the archive, right behind the one before it and whole, with the k-th inode number;
      behind them all stands the trailer, and then zeros up to the next 512 bytes. */
  lemma PackedStands(files: seq<File>, mtime: nat, k: nat)
    requires AllFit(files + [TRAILER_FILE], mtime) && k <= |files|
    ensures var archive, all := Packed(files, mtime), files + [TRAILER_FILE];
            var at, end := |Entries(all[..k], mtime)|, |Entries(all[..k + 1], mtime)|;
            && (k == 0 ==> at == 0)
            && (k < |files| ==> EntryStands(archive, at, end, k + 1, files[k], mtime))
            && (k == |files| ==> IsText(TRAILER, "TRAILER!!!") && EntryStands(archive, at, end, k + 1, File(TRAILER, 0x8000, []), mtime)
                                 && Padded(archive, end, |archive|, 512))
  {
    hide EntryStands, EntryBytes, Padded, Newc.Fits;
    var all := files + [TRAILER_FILE];
    var archive, whole := Packed(files, mtime), Entries(all, mtime);
    assert archive[..|whole|] == whole;
    EntryInPlace(archive, all, mtime, k);
    EntryIsThere(archive, |Entries(all[..k], mtime)|, all[k], k + 1, mtime);
    assert all[..0] == [] && all[..|all|] == all;
    TrailerIs();
    Blocks(whole, archive);
  }

  lemma TrailerIs()
    ensures IsText(TRAILER, "TRAILER!!!")
  {}

  lemma Blocks(whole: Bytes, archive: Bytes)
    requires archive == whole + Zeros((512 - |whole| % 512) % 512)
    ensures Padded(archive, |whole|, |archive|, 512)
  {
    assert archive[|whole|..|archive|] == Zeros((512 - |whole| % 512) % 512);
  }

  // ---------- an archive that is cut short ----------

  lemma CutSlice(archive: Bytes, n: nat, lo: nat, hi: nat)
    requires lo <= hi <= n <= |archive|
    ensures archive[..n][lo..hi] == archive[lo..hi]
  {}

  /** An entry that the cut goes through is never read as whole. */
  lemma CutEntryFails(archive: Bytes, n: nat, at: nat, f: File, inode: nat, mtime: nat, entries: Dict)
    requires Newc.Fits(f, inode, mtime) && (f.name == TRAILER ==> f.data == [])
    requires var e := EntryBytes(at, f, inode, mtime);
             at + |e| <= |archive| && archive[at..at + |e|] == e && n < at + |e|
    ensures ParseFrom(archive[..n], at, entries).Err?
  {
    hide Layout, Header, Newc.Fits, Field;
    var cut := archive[..n];
    if at + HEADER <= n {
      var h := Header(f, inode, mtime);
      HeaderLength(f, inode, mtime);
      LayoutParts(archive, at, h, f.name, f.data);
      LayoutEnds(at, h, f.name, f.data);
      CutSlice(archive, n, at, at + HEADER);
      HeaderFields(cut, at, f, inode, mtime);
      CutEntryStops(cut, at, f.name, |f.data|);
      if ReadEntry(cut, at).Item? {
        var next := ReadEntry(cut, at).next;
        assert ParseFrom(cut, next, entries[ReadEntry(cut, at).name := ReadEntry(cut, at).data]) == Err(NoTrailer);
      }
    }
  }

  lemma CutEntryStops(cut: Bytes, at: nat, name: Bytes, size: nat)
    requires at + HEADER <= |cut| && Field(cut, at, 11) == Some(|name| + 1) && Field(cut, at, 6) == Some(size)
    requires at + HEADER + |name| + 1 <= |cut| ==> cut[at + HEADER..at + HEADER + |name|] == name
    requires name == TRAILER ==> size == 0
    requires |cut| < Align4(Align4(at + HEADER + |name| + 1) + size)
    ensures !ReadEntry(cut, at).End? && (ReadEntry(cut, at).Item? ==> ReadEntry(cut, at).next > |cut|)
  {
    hide Field;
  }

  lemma {:induction false} CutParses(archive: Bytes, n: nat, files: seq<File>, mtime: nat, k: nat)
    requires AllFit(files + [TRAILER_FILE], mtime) && Entries(files + [TRAILER_FILE], mtime) <= archive && n <= |archive|
    requires (forall i | 0 <= i < |files| :: files[i].name != TRAILER) && k <= |files|
    requires |Entries((files + [TRAILER_FILE])[..k], mtime)| <= n
    ensures var r := ParseFrom(archive[..n], |Entries((files + [TRAILER_FILE])[..k], mtime)|, Contents((files + [TRAILER_FILE])[..k]));
            if |Entries(files + [TRAILER_FILE], mtime)| <= n then r == Ok(Contents(files)) else r.Err?
    decreases |files| - k
  {
    hide EntryBytes, Newc.Fits, Contents, ReadEntry;
    var all := files + [TRAILER_FILE];
    var at := |Entries(all[..k], mtime)|;
    var end := |Entries(all[..k + 1], mtime)|;
    EntryInPlace(archive, all, mtime, k);
    EntriesPrefix(all, mtime, k + 1);
    if n < end {
      CutEntryFails(archive, n, at, all[k], k + 1, mtime, Contents(all[..k]));
    } else {
      CutSlice(archive, n, at, end);
      ReadsBack(archive[..n], at, all[k], k + 1, mtime);
      if k < |files| {
        ContentsSnoc(all, k);
        assert all[k] == files[k];
        CutParses(archive, n, files, mtime, k + 1);
      } else {
        assert all[..k] == files && all[..k + 1] == all;
      }
    }
  }

  /** However an archive is cut, it is read as its files exactly when all of them and the trailer are left, and refused otherwise. */
  lemma TruncationIsDetected(files: seq<File>, mtime: nat, n: nat)
    requires AllFit(files + [TRAILER_FILE], mtime) && forall i | 0 <= i < |files| :: files[i].name != TRAILER
    requires n <= |Packed(files, mtime)|
    ensures var r := ParseFrom(Packed(files, mtime)[..n], 0, map[]);
            if |Entries(files + [TRAILER_FILE], mtime)| <= n then r == Ok(Contents(files)) else r.Err?
  {
    hide EntryBytes, Newc.Fits, ParseFrom;
    var all := files + [TRAILER_FILE];
    assert all[..0] == [];
    CutParses(Packed(files, mtime), n, files, mtime, 0);
  }
}
