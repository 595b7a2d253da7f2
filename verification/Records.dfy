/** The inode records the writer emits, and their decoding. */
module Records {
  import opened Bytes
  import opened Codecs
  import opened Metadata
  import opened Inodes

  /** The 16 bytes every inode starts with. */
  function InodeHeader(t: nat, perm: nat, uid: nat, gid: nat, mtime: nat, num: nat): (r: seq<Byte>)
    ensures |r| == 16
  {
    LE16(t) + LE16(perm) + LE16(uid) + LE16(gid) + LE32(mtime) + LE32(num)
  }

  /** The writer's: owner index, group index and time are 0. */
  function Header(t: nat, perm: nat, num: nat): (r: seq<Byte>)
    ensures |r| == 16
  {
    InodeHeader(t, perm, 0, 0, 0, num)
  }

  function EncodeWords(words: seq<nat>): (r: seq<Byte>)
    ensures |r| == 4 * |words|
  {
    if words == [] then [] else LE32(words[0]) + EncodeWords(words[1..])
  }

  function FileBody(start: nat, fragIdx: nat, fragOff: nat, size: nat): (r: seq<Byte>)
    ensures |r| == 16
  {
    LE32(start) + LE32(fragIdx) + LE32(fragOff) + LE32(size)
  }

  function FileRecord(perm: nat, num: nat, start: nat, fragIdx: nat, fragOff: nat, size: nat,
                      words: seq<nat>): (r: seq<Byte>)
    ensures |r| == 32 + 4 * |words|
  {
    Header(BASIC_FILE, perm, num) + (FileBody(start, fragIdx, fragOff, size) + EncodeWords(words))
  }

  function LinkBody(len: nat): (r: seq<Byte>)
    ensures |r| == 8
  {
    LE32(1) + LE32(len)
  }

  function LinkRecord(perm: nat, num: nat, target: seq<Byte>): (r: seq<Byte>)
    ensures |r| == 24 + |target|
  {
    Header(BASIC_SYMLINK, perm, num) + (LinkBody(|target|) + target)
  }

  function DirBody(block: nat, entries: nat, listing: nat, offset: nat): (r: seq<Byte>)
    ensures |r| == 16
  {
    LE32(block) + LE32(entries + 2) + LE16(listing + 3) + LE16(offset) + LE32(1)
  }

  function DirRecord(perm: nat, num: nat, block: nat, entries: nat, listing: nat, offset: nat): (r: seq<Byte>)
    ensures |r| == 32
  {
    Header(BASIC_DIR, perm, num) + DirBody(block, entries, listing, offset)
  }

  // ----- Decoding -----

  /** The inode a header alone decodes to. */
  function Plain(t: nat, perm: nat, num: nat): Inode {
    Inode(t, perm + TypeBits(t), num, 0, NO_XATTR, 0, 0, 0, [], 0, 0, [])
  }

  lemma HeaderDecodes(t: nat, perm: nat, uid: nat, gid: nat, mtime: nat, num: nat)
    requires t < TWO_16 && perm < 0x1000 && num < TWO_32
    ensures ReadHeader(InodeHeader(t, perm, uid, gid, mtime, num)) == Plain(t, perm, num)
  {
    hide LE16, LE32, U16, U32, Mode, TypeBits;
    var h := InodeHeader(t, perm, uid, gid, mtime, num);
    assert h[0..2] == LE16(t);
    assert h[2..4] == LE16(perm);
    assert h[12..16] == LE32(num);
    ModeOfPerm(perm, t);
  }

  lemma ModeOfPerm(perm: nat, t: nat)
    requires perm < 0x1000
    ensures Mode(perm, t) == perm + TypeBits(t)
  {
    assert TypeBits(t) == TypeBits(t) / 0x1000 * 0x1000;
  }

  lemma FileBodyDecodes(start: nat, fragIdx: nat, fragOff: nat, size: nat)
    ensures var b := FileBody(start, fragIdx, fragOff, size);
            && U32(b[0..4]) == start % TWO_32 && U32(b[4..8]) == fragIdx % TWO_32
            && U32(b[8..12]) == fragOff % TWO_32 && U32(b[12..16]) == size % TWO_32
  {
    hide LE32, U32;
    var b := FileBody(start, fragIdx, fragOff, size);
    assert b[0..4] == LE32(start) && b[4..8] == LE32(fragIdx) && b[8..12] == LE32(fragOff) && b[12..16] == LE32(size);
  }

  lemma LinkBodyDecodes(len: nat)
    ensures U32(LinkBody(len)[4..8]) == len % TWO_32
  {
    hide LE32, U32;
    assert LinkBody(len)[4..8] == LE32(len);
  }

  lemma DirBodyDecodes(block: nat, entries: nat, listing: nat, offset: nat)
    ensures var b := DirBody(block, entries, listing, offset);
            && U32(b[0..4]) == block % TWO_32 && U16(b[8..10]) == (listing + 3) % TWO_16
            && U16(b[10..12]) == offset % TWO_16
  {
    hide LE16, LE32, U16, U32;
    var b := DirBody(block, entries, listing, offset);
    assert b[0..4] == LE32(block) && b[8..10] == LE16(listing + 3) && b[10..12] == LE16(offset);
  }

  lemma {:induction false} WordsReadBack(fs: FS, st: Storage, table: int, s: seq<Byte>, k: nat, c: Cursor,
                                         words: seq<nat>)
    requires TableAt(fs, st, table, s) && CursorAt(st, table, s, k, c)
    requires Holds(s, k, EncodeWords(words)) && forall i :: 0 <= i < |words| ==> words[i] < TWO_32
    ensures ReadWords(fs, c, |words|).Ok? && ReadWords(fs, c, |words|).value.0 == words
    decreases |words|
  {
    hide ReadBytes, TableAt, CursorAt, LE32, U32;
    if words != [] {
      HoldsParts(s, k, LE32(words[0]), EncodeWords(words[1..]));
      ReadBack(fs, st, table, s, k, c, 4);
      WordsReadBack(fs, st, table, s, k + 4, ReadBytes(fs, c, 4).value.1, words[1..]);
      assert [words[0]] + words[1..] == words;
    }
  }

  /** A cursor opened where a record starts. */
  lemma OpensAt(fs: FS, st: Storage, start: nat, s: seq<Byte>, k: nat) returns (c: Cursor)
    requires TableAt(fs, st, start, s) && |fs.image| < 0x8000_0000_0000_0000 && k < |s|
    ensures OpenCursor(fs, TableOffset(start, BlockStart(st, s, k)), k - Floor(k)) == Ok(c)
    ensures CursorAt(st, start, s, k, c)
  {
    hide ReadMetaBlock, Table, CursorAt, Lawful, I64;
    var b := Floor(k);
    var e := Min(b + META_MAX, |s|);
    BlockStartWithin(st, s, k);
    SmallTableOffset(start, BlockStart(st, s, k));
    LoadBlock(fs, st, start, s, b, e);
    CursorLoaded(st, start, s, b, e, k - b);
    c := Cursor(start + |Table(st, s[..e])|, s[b..e], k - b);
  }

  lemma SmallTableOffset(start: nat, block: nat)
    requires start + block < 0x8000_0000_0000_0000
    ensures TableOffset(start, block) == start + block
  {
  }

  /** A record stands at position k of the inode table, and its reference is in range. */
  ghost predicate RecordAt(fs: FS, st: Storage, s: seq<Byte>, k: nat, record: seq<Byte>) {
    && TableAt(fs, st, fs.sb.inodeTable, s) && |fs.image| < 0x8000_0000_0000_0000 && fs.sb.blockSize > 0
    && Holds(s, k, record) && record != [] && BlockStart(st, s, k) < TWO_48
  }

  /** Reading the header of a record leaves the cursor at what follows it. */
  lemma RecordOpens(fs: FS, st: Storage, s: seq<Byte>, k: nat, hdr: seq<Byte>, body: seq<Byte>) returns (c: Cursor)
    requires RecordAt(fs, st, s, k, hdr + body) && |hdr| == 16
    ensures CursorAt(st, fs.sb.inodeTable, s, k + 16, c) && Holds(s, k + 16, body)
    ensures ReadInode(fs, RefAt(st, s, k)) == ReadBody(fs, c, ReadHeader(hdr))
  {
    hide ReadBytes, OpenCursor, TableOffset, TableAt, CursorAt, BlockStart, RefAt, Floor, ReadHeader, ReadBody,
         RefBlock, RefOffset;
    HoldsParts(s, k, hdr, body);
    RefParts(st, s, k);
    var c0 := OpensAt(fs, st, fs.sb.inodeTable, s, k);
    ReadBack(fs, st, fs.sb.inodeTable, s, k, c0, 16);
    c := ReadBytes(fs, c0, 16).value.1;
  }

  /** The same for an inode the writer wrote. */
  lemma HeaderReadsBack(fs: FS, st: Storage, s: seq<Byte>, k: nat, t: nat, perm: nat, num: nat, body: seq<Byte>)
    returns (c: Cursor)
    requires RecordAt(fs, st, s, k, Header(t, perm, num) + body)
    requires 1 <= t <= 3 && perm < 0x1000 && num < TWO_32
    ensures CursorAt(st, fs.sb.inodeTable, s, k + 16, c) && Holds(s, k + 16, body)
    ensures ReadInode(fs, RefAt(st, s, k)) ==
            var in0 := Plain(t, perm, num);
            if t == BASIC_DIR then ReadDirBody(fs, c, in0)
            else if t == BASIC_FILE then ReadFileBody(fs, c, in0)
            else ReadSymlinkBody(fs, c, in0)
  {
    hide ReadInode, TableAt, CursorAt, BlockStart, RefAt, InodeHeader, Plain, ReadHeader, ReadDirBody, ReadFileBody,
         ReadSymlinkBody, ReadExtDirBody, ReadExtFileBody;
    c := RecordOpens(fs, st, s, k, Header(t, perm, num), body);
    HeaderDecodes(t, perm, 0, 0, 0, num);
    PlainType(t, perm, num);
  }

  lemma PlainType(t: nat, perm: nat, num: nat)
    ensures Plain(t, perm, num).itype == t
  {
  }

  /** A directory record decodes to where its listing is and how long it is, as stored. */
  lemma DirRecordDecodes(fs: FS, st: Storage, s: seq<Byte>, k: nat, perm: nat, num: nat,
                         block: nat, entries: nat, listing: nat, offset: nat)
    requires RecordAt(fs, st, s, k, DirRecord(perm, num, block, entries, listing, offset))
    requires perm < 0x1000 && num < TWO_32
    ensures ReadInode(fs, RefAt(st, s, k)) ==
            Ok(Plain(BASIC_DIR, perm, num).(dirStartBlock := block % TWO_32,
               size := DirDataSize((listing + 3) % TWO_16), dirOffset := offset % TWO_16))
  {
    hide ReadInode, ReadBytes, TableAt, CursorAt, BlockStart, RefAt, DirBody, U16, U32, DirDataSize, Header;
    var c := HeaderReadsBack(fs, st, s, k, BASIC_DIR, perm, num, DirBody(block, entries, listing, offset));
    ReadBack(fs, st, fs.sb.inodeTable, s, k + 16, c, 16);
    DirBodyDecodes(block, entries, listing, offset);
  }

  lemma LinkRecordDecodes(fs: FS, st: Storage, s: seq<Byte>, k: nat, perm: nat, num: nat, target: seq<Byte>)
    requires RecordAt(fs, st, s, k, LinkRecord(perm, num, target))
    requires perm < 0x1000 && num < TWO_32 && |target| <= META_MAX
    ensures ReadInode(fs, RefAt(st, s, k)) ==
            Ok(Plain(BASIC_SYMLINK, perm, num).(target := target, size := |target|))
  {
    hide ReadInode, ReadBytes, TableAt, CursorAt, BlockStart, RefAt, LinkBody, U16, U32, Header;
    var body := LinkBody(|target|) + target;
    var c := HeaderReadsBack(fs, st, s, k, BASIC_SYMLINK, perm, num, body);
    HoldsParts(s, k + 16, LinkBody(|target|), target);
    ReadBack(fs, st, fs.sb.inodeTable, s, k + 16, c, 8);
    LinkBodyDecodes(|target|);
    ReadBack(fs, st, fs.sb.inodeTable, s, k + 24, ReadBytes(fs, c, 8).value.1, |target|);
  }

  lemma FileRecordDecodes(fs: FS, st: Storage, s: seq<Byte>, k: nat, perm: nat, num: nat,
                          start: nat, fragIdx: nat, fragOff: nat, size: nat, words: seq<nat>)
    requires RecordAt(fs, st, s, k, FileRecord(perm, num, start, fragIdx, fragOff, size, words))
    requires perm < 0x1000 && num < TWO_32 && fragIdx < TWO_32 && fragOff < TWO_32 && size < TWO_32
    requires forall i :: 0 <= i < |words| ==> words[i] < TWO_32
    requires |words| == BlockCount(size, fs.sb.blockSize, fragIdx != INVALID_FRAG) && |words| <= MAX_BLOCKS
    ensures ReadInode(fs, RefAt(st, s, k)) ==
            Ok(Plain(BASIC_FILE, perm, num).(
               blocksStart := start % TWO_32, fragIdx := fragIdx, fragOffset := fragOff, size := size,
               blockSizes := words))
  {
    hide ReadInode, ReadBytes, ReadWords, TableAt, CursorAt, BlockStart, RefAt, FileBody, U16, U32, BlockCount,
         EncodeWords, Header;
    var body := FileBody(start, fragIdx, fragOff, size);
    var c := HeaderReadsBack(fs, st, s, k, BASIC_FILE, perm, num, body + EncodeWords(words));
    HoldsParts(s, k + 16, body, EncodeWords(words));
    ReadBack(fs, st, fs.sb.inodeTable, s, k + 16, c, 16);
    FileBodyDecodes(start, fragIdx, fragOff, size);
    WordsReadBack(fs, st, fs.sb.inodeTable, s, k + 32, ReadBytes(fs, c, 16).value.1, words);
  }
}
