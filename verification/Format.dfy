/** Records in the bytes and numbers of the format: decoding inodes of any origin, all fourteen
    types, and what the writer puts into every field, those the reader skips included. */
module Format {
  import opened Bytes
  import opened Codecs
  import opened Metadata
  import opened Inodes
  import opened Data
  import opened Directory
  import opened Tree
  import opened Layout
  import opened FragmentTables
  import opened Records

  /** Word i of a block list stands at byte 4 * i. */
  lemma {:induction false} WordAt(words: seq<nat>, i: nat)
    requires i < |words|
    ensures Holds(EncodeWords(words), 4 * i, LE32(words[i]))
    decreases i
  {
    hide LE32;
    if i > 0 {
      WordAt(words[1..], i - 1);
      var rest := EncodeWords(words[1..]);
      assert EncodeWords(words)[4 * i..4 * i + 4] == rest[4 * (i - 1)..4 * (i - 1) + 4];
    }
  }

  /** The Unix file type of each inode type. */
  lemma TypeBitsOf(t: nat)
    ensures TypeBits(t) ==
            if t == 1 || t == 8 then 0x4000
            else if t == 2 || t == 9 then 0x8000
            else if t == 3 || t == 10 then 0xA000
            else if t == 4 || t == 11 then 0x6000
            else if t == 5 || t == 12 then 0x2000
            else if t == 6 || t == 13 then 0x1000
            else if t == 7 || t == 14 then 0xC000
            else 0
  {
  }

  /** A mode word that already has type bits is or-ed with them, bit by bit. */
  lemma {:induction false} BitOrBits(a: nat, b: nat, i: nat)
    ensures BitAt(BitOr(a, b), i) <==> BitAt(a, i) || BitAt(b, i)
    decreases i
  {
    if i > 0 && a != 0 && b != 0 {
      BitOrBits(a / 2, b / 2, i - 1);
    } else if i > 0 {
      ZeroBits(i);
    }
  }

  predicate BitAt(x: nat, i: nat) {
    if i == 0 then x % 2 == 1 else BitAt(x / 2, i - 1)
  }

  lemma {:induction false} ZeroBits(i: nat)
    ensures !BitAt(0, i)
  {
    if i > 0 {
      ZeroBits(i - 1);
    }
  }

  lemma BasicDirDecodes(fs: FS, st: Storage, s: seq<Byte>, k: nat, perm: nat, uid: nat, gid: nat, mtime: nat, num: nat,
                        block: nat, nlink: nat, size: nat, offset: nat, parent: nat)
    requires RecordAt(fs, st, s, k, InodeHeader(1, perm, uid, gid, mtime, num) +
                                    (LE32(block) + LE32(nlink) + LE16(size) + LE16(offset) + LE32(parent)))
    requires perm < 0x1000 && num < TWO_32 && block < TWO_32 && size < TWO_16 && offset < TWO_16
    ensures ReadInode(fs, RefAt(st, s, k)) ==
            Ok(Inode(1, perm + 0x4000, num, if size < 3 then 0 else size - 3, 0xFFFF_FFFF,
                     0, 0, 0, [], block, offset, []))
  {
    hide ReadInode, ReadBytes, TableAt, CursorAt, BlockStart, RefAt, U16, U32, LE16, LE32, InodeHeader, ReadHeader,
         TypeBits;
    var body := LE32(block) + LE32(nlink) + LE16(size) + LE16(offset) + LE32(parent);
    var c := RecordOpens(fs, st, s, k, InodeHeader(1, perm, uid, gid, mtime, num), body);
    HeaderDecodes(1, perm, uid, gid, mtime, num);
    TypeBitsOf(1);
    ReadBack(fs, st, fs.sb.inodeTable, s, k + 16, c, 16);
    assert body[0..4] == LE32(block) && body[8..10] == LE16(size) && body[10..12] == LE16(offset);
  }

  lemma ExtDirDecodes(fs: FS, st: Storage, s: seq<Byte>, k: nat, perm: nat, uid: nat, gid: nat, mtime: nat, num: nat,
                      nlink: nat, size: nat, block: nat, parent: nat, count: nat, offset: nat, xattr: nat)
    requires RecordAt(fs, st, s, k, InodeHeader(8, perm, uid, gid, mtime, num) +
                                    (LE32(nlink) + LE32(size) + LE32(block) + LE32(parent) + LE16(count) +
                                     LE16(offset) + LE32(xattr)))
    requires perm < 0x1000 && num < TWO_32 && size < TWO_32 && block < TWO_32 && offset < TWO_16 && xattr < TWO_32
    ensures ReadInode(fs, RefAt(st, s, k)) ==
            Ok(Inode(8, perm + 0x4000, num, if size < 3 then 0 else size - 3, xattr, 0, 0, 0, [], block, offset, []))
  {
    hide ReadInode, ReadBytes, TableAt, CursorAt, BlockStart, RefAt, U16, U32, LE16, LE32, InodeHeader, ReadHeader,
         TypeBits;
    var body := LE32(nlink) + LE32(size) + LE32(block) + LE32(parent) + LE16(count) + LE16(offset) + LE32(xattr);
    var c := RecordOpens(fs, st, s, k, InodeHeader(8, perm, uid, gid, mtime, num), body);
    HeaderDecodes(8, perm, uid, gid, mtime, num);
    TypeBitsOf(8);
    ReadBack(fs, st, fs.sb.inodeTable, s, k + 16, c, 24);
    assert body[4..8] == LE32(size) && body[8..12] == LE32(block) && body[18..20] == LE16(offset);
    assert body[20..24] == LE32(xattr);
  }

  /** The number of words a file record carries: the full blocks when the tail is in a fragment,
      otherwise enough blocks for the whole file. */
  ghost predicate CountFits(size: nat, blockSize: nat, fragIdx: nat, count: nat) {
    && blockSize > 0 && size + blockSize - 1 < 0x1_0000_0000_0000_0000 && count <= 0x100_0000
    && count == if fragIdx != 0xFFFF_FFFF then size / blockSize else (size + blockSize - 1) / blockSize
  }

  lemma CountIsRead(size: nat, blockSize: nat, fragIdx: nat, count: nat)
    requires CountFits(size, blockSize, fragIdx, count)
    ensures count == BlockCount(size, blockSize, fragIdx != INVALID_FRAG) && count <= MAX_BLOCKS
  {
    hide I64;
    SmallI64(count);
    var total := size + blockSize - 1;
    assert total % TWO_64 == total;
  }

  lemma SmallI64(x: int)
    requires 0 <= x < 0x8000_0000_0000_0000
    ensures I64(x) == x
  {
  }

  lemma WordsRead(fs: FS, st: Storage, s: seq<Byte>, k: nat, c: Cursor, size: nat, fragIdx: nat, words: seq<nat>)
    requires TableAt(fs, st, fs.sb.inodeTable, s) && CursorAt(st, fs.sb.inodeTable, s, k, c)
    requires Holds(s, k, EncodeWords(words)) && forall i :: 0 <= i < |words| ==> words[i] < TWO_32
    requires CountFits(size, fs.sb.blockSize, fragIdx, |words|)
    ensures ReadBlockList(fs, c, size, fragIdx) == Ok(words)
  {
    hide ReadWords, TableAt, CursorAt, EncodeWords, BlockCount;
    CountIsRead(size, fs.sb.blockSize, fragIdx, |words|);
    WordsReadBack(fs, st, fs.sb.inodeTable, s, k, c, words);
  }

  lemma BasicFileFields(start: nat, fragIdx: nat, fragOff: nat, size: nat)
    requires start < TWO_32 && fragIdx < TWO_32 && fragOff < TWO_32 && size < TWO_32
    ensures var b := LE32(start) + LE32(fragIdx) + LE32(fragOff) + LE32(size);
            && U32(b[0..4]) == start && U32(b[4..8]) == fragIdx && U32(b[8..12]) == fragOff && U32(b[12..16]) == size
  {
    hide U32, LE32;
    var b := LE32(start) + LE32(fragIdx) + LE32(fragOff) + LE32(size);
    assert b[0..4] == LE32(start) && b[4..8] == LE32(fragIdx) && b[8..12] == LE32(fragOff) && b[12..16] == LE32(size);
  }

  lemma BasicFileDecodes(fs: FS, st: Storage, s: seq<Byte>, k: nat, perm: nat, uid: nat, gid: nat, mtime: nat, num: nat,
                         start: nat, fragIdx: nat, fragOff: nat, size: nat, words: seq<nat>)
    requires RecordAt(fs, st, s, k, InodeHeader(2, perm, uid, gid, mtime, num) +
                                    (LE32(start) + LE32(fragIdx) + LE32(fragOff) + LE32(size) + EncodeWords(words)))
    requires perm < 0x1000 && num < TWO_32 && start < TWO_32 && fragIdx < TWO_32 && fragOff < TWO_32 && size < TWO_32
    requires CountFits(size, fs.sb.blockSize, fragIdx, |words|) && forall i :: 0 <= i < |words| ==> words[i] < TWO_32
    ensures ReadInode(fs, RefAt(st, s, k)) ==
            Ok(Inode(2, perm + 0x8000, num, size, 0xFFFF_FFFF, start, fragIdx, fragOff, words, 0, 0, []))
  {
    hide ReadInode, TableAt, CursorAt, BlockStart, RefAt, LE32, InodeHeader, ReadHeader, TypeBits, EncodeWords,
         CountFits, Holds, ReadDirBody, ReadFileBody, ReadExtDirBody, ReadExtFileBody, ReadSymlinkBody;
    var fixed := LE32(start) + LE32(fragIdx) + LE32(fragOff) + LE32(size);
    var c := RecordOpens(fs, st, s, k, InodeHeader(2, perm, uid, gid, mtime, num), fixed + EncodeWords(words));
    HeaderDecodes(2, perm, uid, gid, mtime, num);
    TypeBitsOf(2);
    BasicFileBodyReads(fs, st, s, k + 16, c, Plain(2, perm, num), start, fragIdx, fragOff, size, words);
  }

  lemma BasicFileBodyReads(fs: FS, st: Storage, s: seq<Byte>, k: nat, c: Cursor, in0: Inode,
                           start: nat, fragIdx: nat, fragOff: nat, size: nat, words: seq<nat>)
    requires TableAt(fs, st, fs.sb.inodeTable, s) && CursorAt(st, fs.sb.inodeTable, s, k, c)
    requires Holds(s, k, LE32(start) + LE32(fragIdx) + LE32(fragOff) + LE32(size) + EncodeWords(words))
    requires start < TWO_32 && fragIdx < TWO_32 && fragOff < TWO_32 && size < TWO_32
    requires CountFits(size, fs.sb.blockSize, fragIdx, |words|) && forall i :: 0 <= i < |words| ==> words[i] < TWO_32
    ensures ReadFileBody(fs, c, in0) ==
            Ok(in0.(blocksStart := start, fragIdx := fragIdx, fragOffset := fragOff, size := size, blockSizes := words))
  {
    hide ReadBytes, ReadBlockList, TableAt, CursorAt, U32, LE32, EncodeWords, CountFits, Holds;
    var fixed := LE32(start) + LE32(fragIdx) + LE32(fragOff) + LE32(size);
    BasicFileFields(start, fragIdx, fragOff, size);
    var c1 := FixedRead(fs, st, s, k, c, fixed, EncodeWords(words));
    WordsRead(fs, st, s, k + 16, c1, size, fragIdx, words);
  }

  /** The fixed part of a body, and what follows it. */
  lemma FixedRead(fs: FS, st: Storage, s: seq<Byte>, k: nat, c: Cursor, fixed: seq<Byte>, rest: seq<Byte>)
    returns (c1: Cursor)
    requires TableAt(fs, st, fs.sb.inodeTable, s) && CursorAt(st, fs.sb.inodeTable, s, k, c)
    requires Holds(s, k, fixed + rest)
    ensures ReadBytes(fs, c, |fixed|) == Ok((fixed, c1))
    ensures CursorAt(st, fs.sb.inodeTable, s, k + |fixed|, c1) && Holds(s, k + |fixed|, rest)
  {
    hide ReadBytes, TableAt, CursorAt;
    HoldsParts(s, k, fixed, rest);
    ReadBack(fs, st, fs.sb.inodeTable, s, k, c, |fixed|);
    c1 := ReadBytes(fs, c, |fixed|).value.1;
  }

  lemma ExtFileFields(start: nat, size: nat, sparse: nat, nlink: nat, fragIdx: nat, fragOff: nat, xattr: nat)
    requires start < TWO_64 && size < TWO_64 && fragIdx < TWO_32 && fragOff < TWO_32 && xattr < TWO_32
    ensures var b := LE64(start) + LE64(size) + LE64(sparse) + LE32(nlink) + LE32(fragIdx) + LE32(fragOff) +
                     LE32(xattr);
            && U64(b[0..8]) == start && U64(b[8..16]) == size && U32(b[28..32]) == fragIdx
            && U32(b[32..36]) == fragOff && U32(b[36..40]) == xattr
  {
    hide U32, LE32, U64, LE64;
    var b := LE64(start) + LE64(size) + LE64(sparse) + LE32(nlink) + LE32(fragIdx) + LE32(fragOff) + LE32(xattr);
    assert b[0..8] == LE64(start) && b[8..16] == LE64(size) && b[28..32] == LE32(fragIdx);
    assert b[32..36] == LE32(fragOff) && b[36..40] == LE32(xattr);
  }

  /** Size and start are 64 bits wide here. */
  lemma ExtFileDecodes(fs: FS, st: Storage, s: seq<Byte>, k: nat, perm: nat, uid: nat, gid: nat, mtime: nat, num: nat,
                       start: nat, size: nat, sparse: nat, nlink: nat, fragIdx: nat, fragOff: nat, xattr: nat,
                       words: seq<nat>)
    requires RecordAt(fs, st, s, k, InodeHeader(9, perm, uid, gid, mtime, num) +
                                    (LE64(start) + LE64(size) + LE64(sparse) + LE32(nlink) + LE32(fragIdx) +
                                     LE32(fragOff) + LE32(xattr) + EncodeWords(words)))
    requires perm < 0x1000 && num < TWO_32 && start < TWO_64 && size < TWO_64
    requires fragIdx < TWO_32 && fragOff < TWO_32 && xattr < TWO_32
    requires CountFits(size, fs.sb.blockSize, fragIdx, |words|) && forall i :: 0 <= i < |words| ==> words[i] < TWO_32
    ensures ReadInode(fs, RefAt(st, s, k)) ==
            Ok(Inode(9, perm + 0x8000, num, size, xattr, start, fragIdx, fragOff, words, 0, 0, []))
  {
    hide ReadInode, TableAt, CursorAt, BlockStart, RefAt, LE32, LE64, InodeHeader, ReadHeader, TypeBits, EncodeWords,
         CountFits, Holds, ReadDirBody, ReadFileBody, ReadExtDirBody, ReadExtFileBody, ReadSymlinkBody;
    var fixed := LE64(start) + LE64(size) + LE64(sparse) + LE32(nlink) + LE32(fragIdx) + LE32(fragOff) + LE32(xattr);
    var c := RecordOpens(fs, st, s, k, InodeHeader(9, perm, uid, gid, mtime, num), fixed + EncodeWords(words));
    HeaderDecodes(9, perm, uid, gid, mtime, num);
    TypeBitsOf(9);
    ExtFileBodyReads(fs, st, s, k + 16, c, Plain(9, perm, num), start, size, sparse, nlink, fragIdx, fragOff, xattr,
                     words);
  }

  lemma ExtFileBodyReads(fs: FS, st: Storage, s: seq<Byte>, k: nat, c: Cursor, in0: Inode, start: nat, size: nat,
                         sparse: nat, nlink: nat, fragIdx: nat, fragOff: nat, xattr: nat, words: seq<nat>)
    requires TableAt(fs, st, fs.sb.inodeTable, s) && CursorAt(st, fs.sb.inodeTable, s, k, c)
    requires Holds(s, k, LE64(start) + LE64(size) + LE64(sparse) + LE32(nlink) + LE32(fragIdx) + LE32(fragOff) +
                         LE32(xattr) + EncodeWords(words))
    requires start < TWO_64 && size < TWO_64 && fragIdx < TWO_32 && fragOff < TWO_32 && xattr < TWO_32
    requires CountFits(size, fs.sb.blockSize, fragIdx, |words|) && forall i :: 0 <= i < |words| ==> words[i] < TWO_32
    ensures ReadExtFileBody(fs, c, in0) ==
            Ok(in0.(blocksStart := start, size := size, fragIdx := fragIdx, fragOffset := fragOff, xattrIdx := xattr,
                    blockSizes := words))
  {
    hide ReadBytes, ReadBlockList, TableAt, CursorAt, U32, LE32, U64, LE64, EncodeWords, CountFits, Holds;
    var fixed := LE64(start) + LE64(size) + LE64(sparse) + LE32(nlink) + LE32(fragIdx) + LE32(fragOff) + LE32(xattr);
    ExtFileFields(start, size, sparse, nlink, fragIdx, fragOff, xattr);
    var c1 := FixedRead(fs, st, s, k, c, fixed, EncodeWords(words));
    WordsRead(fs, st, s, k + 40, c1, size, fragIdx, words);
  }

  /** Links of both types; an extended one has its attribute index after the target. */
  lemma LinkDecodes(fs: FS, st: Storage, s: seq<Byte>, k: nat, t: nat, perm: nat, uid: nat, gid: nat, mtime: nat,
                    num: nat, nlink: nat, target: seq<Byte>, xattr: nat)
    requires t == 3 || t == 10
    requires RecordAt(fs, st, s, k, InodeHeader(t, perm, uid, gid, mtime, num) +
                                    (LE32(nlink) + LE32(|target|) + (target + if t == 10 then LE32(xattr) else [])))
    requires perm < 0x1000 && num < TWO_32 && |target| <= 8192 && xattr < TWO_32
    ensures ReadInode(fs, RefAt(st, s, k)) ==
            Ok(Inode(t, perm + 0xA000, num, |target|, if t == 10 then xattr else 0xFFFF_FFFF,
                     0, 0, 0, [], 0, 0, target))
  {
    hide ReadInode, ReadBytes, TableAt, CursorAt, BlockStart, RefAt, U32, LE32, InodeHeader, ReadHeader, TypeBits;
    var fixed, index := LE32(nlink) + LE32(|target|), if t == 10 then LE32(xattr) else [];
    var c := RecordOpens(fs, st, s, k, InodeHeader(t, perm, uid, gid, mtime, num), fixed + (target + index));
    HeaderDecodes(t, perm, uid, gid, mtime, num);
    TypeBitsOf(t);
    HoldsParts(s, k + 16, fixed, target + index);
    HoldsParts(s, k + 24, target, index);
    ReadBack(fs, st, fs.sb.inodeTable, s, k + 16, c, 8);
    assert fixed[4..8] == LE32(|target|);
    var c1 := ReadBytes(fs, c, 8).value.1;
    ReadBack(fs, st, fs.sb.inodeTable, s, k + 24, c1, |target|);
    if t == 10 {
      ReadBack(fs, st, fs.sb.inodeTable, s, k + 24 + |target|, ReadBytes(fs, c1, |target|).value.1, 4);
    }
  }

  /** A link that claims more than 8192 bytes is refused. */
  lemma LongLinkIsCorrupt(fs: FS, st: Storage, s: seq<Byte>, k: nat, t: nat, perm: nat, num: nat, nlink: nat, len: nat,
                          rest: seq<Byte>)
    requires (t == 3 || t == 10) && perm < 0x1000 && num < TWO_32 && 8192 < len < TWO_32
    requires RecordAt(fs, st, s, k, InodeHeader(t, perm, 0, 0, 0, num) + (LE32(nlink) + LE32(len) + rest))
    ensures ReadInode(fs, RefAt(st, s, k)) == Err(Corrupt)
  {
    hide ReadInode, ReadBytes, TableAt, CursorAt, BlockStart, RefAt, U32, LE32, InodeHeader, ReadHeader, TypeBits;
    var fixed := LE32(nlink) + LE32(len);
    var c := RecordOpens(fs, st, s, k, InodeHeader(t, perm, 0, 0, 0, num), fixed + rest);
    HeaderDecodes(t, perm, 0, 0, 0, num);
    HoldsParts(s, k + 16, fixed, rest);
    ReadBack(fs, st, fs.sb.inodeTable, s, k + 16, c, 8);
    assert fixed[4..8] == LE32(len);
  }

  /** Devices, pipes and sockets need only the header; other types are corrupt. */
  lemma OtherTypesDecode(fs: FS, st: Storage, s: seq<Byte>, k: nat, t: nat, perm: nat, uid: nat, gid: nat, mtime: nat,
                         num: nat, rest: seq<Byte>)
    requires t < TWO_16 && t !in [1, 2, 3, 8, 9, 10] && perm < 0x1000 && num < TWO_32
    requires RecordAt(fs, st, s, k, InodeHeader(t, perm, uid, gid, mtime, num) + rest)
    ensures var mode := perm + if t == 4 || t == 11 then 0x6000 else if t == 5 || t == 12 then 0x2000
                               else if t == 6 || t == 13 then 0x1000 else 0xC000;
            ReadInode(fs, RefAt(st, s, k)) ==
            if 4 <= t <= 7 || 11 <= t <= 14 then Ok(Inode(t, mode, num, 0, 0xFFFF_FFFF, 0, 0, 0, [], 0, 0, []))
            else Err(Corrupt)
  {
    hide ReadInode, TableAt, CursorAt, BlockStart, RefAt, InodeHeader, ReadHeader, TypeBits;
    var c := RecordOpens(fs, st, s, k, InodeHeader(t, perm, uid, gid, mtime, num), rest);
    HeaderDecodes(t, perm, uid, gid, mtime, num);
    TypeBitsOf(t);
    assert t != 1 && t != 2 && t != 3 && t != 8 && t != 9 && t != 10;
  }

  /** A file of either type that claims more than 2^24 blocks is refused. */
  lemma TooManyBlocks(fs: FS, c: Cursor, size: nat, fragIdx: nat)
    requires fs.sb.blockSize > 0 && size + fs.sb.blockSize - 1 < TWO_64
    requires (if fragIdx != 0xFFFF_FFFF then size / fs.sb.blockSize
              else (size + fs.sb.blockSize - 1) / fs.sb.blockSize) > 0x100_0000
    ensures ReadBlockList(fs, c, size, fragIdx) == Err(Corrupt)
  {
    hide ReadWords, I64;
    var count := if fragIdx != 0xFFFF_FFFF then size / fs.sb.blockSize
                 else (size + fs.sb.blockSize - 1) / fs.sb.blockSize;
    CountWraps(count);
    assert (size + fs.sb.blockSize - 1) % TWO_64 == size + fs.sb.blockSize - 1;
    QuotientWithin(size + fs.sb.blockSize - 1, fs.sb.blockSize);
    QuotientWithin(size, fs.sb.blockSize);
  }

  /** A count that wraps is negative. */
  lemma CountWraps(count: nat)
    ensures 0x100_0000 < count < TWO_64 ==> I64(count) < 0 || I64(count) > 0x100_0000
  {
  }

  lemma QuotientWithin(n: nat, d: nat)
    requires d > 0
    ensures n / d <= n
  {
    var q := n / d;
    assert n == q * d + n % d;
    Multiple(q, d);
  }

  lemma Multiple(q: nat, d: nat)
    requires d > 0
    ensures q <= q * d
  {
  }

  /** Which types are what. */
  lemma KindsOfInode(in0: Inode)
    ensures in0.IsDir() <==> in0.itype == 1 || in0.itype == 8
    ensures in0.IsRegular() <==> in0.itype == 2 || in0.itype == 9
    ensures in0.IsSymlink() <==> in0.itype == 3 || in0.itype == 10
  {
  }

  // ----- What the writer writes -----

  /** Type, permissions, owner and group index 0, time 0, number. */
  lemma HeaderBytes(t: nat, perm: nat, num: nat)
    ensures var h := Header(t, perm, num);
            && U16(h[0..2]) == t % TWO_16 && U16(h[2..4]) == perm % TWO_16
            && U16(h[4..6]) == 0 && U16(h[6..8]) == 0 && U32(h[8..12]) == 0 && U32(h[12..16]) == num % TWO_32
  {
    hide LE16, LE32, U16, U32;
    var h := Header(t, perm, num);
    assert h[0..2] == LE16(t) && h[2..4] == LE16(perm) && h[4..6] == LE16(0) && h[6..8] == LE16(0);
    assert h[8..12] == LE32(0) && h[12..16] == LE32(num);
  }

  /** Start, fragment index and offset, size, and the block list. */
  lemma FileBytes(perm: nat, num: nat, start: nat, fragIdx: nat, fragOff: nat, size: nat, words: seq<nat>)
    ensures var r := FileRecord(perm, num, start, fragIdx, fragOff, size, words);
            && r[..16] == Header(2, perm, num) && U32(r[16..20]) == start % TWO_32 && U32(r[20..24]) == fragIdx % TWO_32
            && U32(r[24..28]) == fragOff % TWO_32 && U32(r[28..32]) == size % TWO_32 && r[32..] == EncodeWords(words)
  {
    hide LE32, U32, Header;
    var r := FileRecord(perm, num, start, fragIdx, fragOff, size, words);
    assert r[16..20] == LE32(start) && r[20..24] == LE32(fragIdx) && r[24..28] == LE32(fragOff) &&
           r[28..32] == LE32(size);
  }

  /** One link to it, the length of the target and the target. */
  lemma LinkBytes(perm: nat, num: nat, target: seq<Byte>)
    ensures var r := LinkRecord(perm, num, target);
            && r[..16] == Header(3, perm, num) && U32(r[16..20]) == 1 && U32(r[20..24]) == |target| % TWO_32
            && r[24..] == target
  {
    hide LE32, U32, Header;
    var r := LinkRecord(perm, num, target);
    assert r[16..20] == LE32(1) && r[20..24] == LE32(|target|);
  }

  /** The block of the listing, two links more than it has entries, its length and 3, the offset
      of the listing, and 1 for the parent. */
  lemma DirBytes(perm: nat, num: nat, block: nat, entries: nat, listing: nat, offset: nat)
    ensures var r := DirRecord(perm, num, block, entries, listing, offset);
            && r[..16] == Header(1, perm, num) && U32(r[16..20]) == block % TWO_32
            && U32(r[20..24]) == (entries + 2) % TWO_32 && U16(r[24..26]) == (listing + 3) % TWO_16
            && U16(r[26..28]) == offset % TWO_16 && U32(r[28..32]) == 1
  {
    hide LE16, LE32, U16, U32, Header;
    var r := DirRecord(perm, num, block, entries, listing, offset);
    assert r[16..20] == LE32(block) && r[20..24] == LE32(entries + 2) && r[24..26] == LE16(listing + 3);
    assert r[26..28] == LE16(offset) && r[28..32] == LE32(1);
  }

  /** An entry of a listing: the offset of its inode, the step from the base number in 16 bits,
      the type, and the length of the name less one. */
  lemma EntryBytes(e: DirEntry, base: nat)
    requires 1 <= |e.name| <= 0x1_0000
    ensures var r := EncodeFixed(e, base);
            && U16(r[0..2]) == e.ref % 0x1_0000 && U16(r[2..4]) == (e.num - base) % 0x1_0000
            && U16(r[4..6]) == e.etype % 0x1_0000 && U16(r[6..8]) == |e.name| - 1
  {
    hide LE16, U16;
    var r := EncodeFixed(e, base);
    assert r[0..2] == LE16(e.ref % TWO_16) && r[2..4] == LE16(Delta16(e.num, base));
    assert r[4..6] == LE16(e.etype) && r[6..8] == LE16((|e.name| - 1) % TWO_16);
  }

  /** A header before the entries of a group: the block of their inodes, the number of the first. */
  lemma GroupBytes(es: seq<DirEntry>)
    requires 1 <= |es| <= 256
    ensures EncodeGroup(es) == EncodeHeader(|es|, es[0].ref / 0x1_0000 % 0x1_0000_0000, es[0].num) +
                               EncodeEntries(es, es[0].num)
  {
    hide EncodeHeader, EncodeEntries;
  }

  /** A header: the number of entries less one, a block, a base number. */
  lemma GroupHeaderBytes(count: nat, block: nat, base: nat)
    requires 1 <= count <= 256 && block < TWO_32 && base < TWO_32
    ensures var r := EncodeHeader(count, block, base);
            U32(r[0..4]) == count - 1 && U32(r[4..8]) == block && U32(r[8..12]) == base
  {
    hide LE32, U32;
    var r := EncodeHeader(count, block, base);
    assert r[0..4] == LE32(count - 1) && r[4..8] == LE32(block) && r[8..12] == LE32(base);
  }

  /** A fragment entry: start, size word, and four zero bytes. */
  lemma FragmentBytes(fe: FragEntry)
    requires fe.start < TWO_64 && fe.word < TWO_32
    ensures var r := FragRecord(fe);
            U64(r[0..8]) == fe.start && U32(r[8..12]) == fe.word && r[12..16] == [0, 0, 0, 0]
  {
    hide LE64, U64, U32;
    var r := FragRecord(fe);
    assert r[0..8] == LE64(fe.start) && r[8..12] == LE32(fe.word) && r[12..16] == LE32(0);
  }

  /** The size word of a block of at most 128 KiB: its length on disk, bit 24 set if it is raw;
      raw it is when compression is off, fails or does not make it shorter. */
  lemma SizeWord(st: Storage, payload: seq<Byte>)
    requires 1 <= |payload| <= 131072
    ensures var kept := Keep(st, payload);
            WordOf(st, payload) == |kept.bytes| + if kept.compressed then 0 else 0x100_0000
  {
  }

  /** The header of a metadata block of the writer. */
  lemma MetaHeaderBytes(st: Storage, payload: seq<Byte>)
    requires 1 <= |payload| <= 8192
    ensures var kept, r := Keep(st, payload), MetaBlock(st, payload);
            U16(r[0..2]) == |kept.bytes| + (if kept.compressed then 0 else 0x8000) && r[2..] == kept.bytes
  {
    hide LE16, U16;
    var kept, r := Keep(st, payload), MetaBlock(st, payload);
    assert r[0..2] == LE16(MetaHeader(|kept.bytes|, kept.compressed));
  }

  /** Full blocks of 8192 bytes and a last one of what is left. */
  lemma TableBlocks(st: Storage, s: seq<Byte>)
    ensures 1 <= |s| <= 8192 ==> Table(st, s) == MetaBlock(st, s)
    ensures |s| > 8192 ==> Table(st, s) == MetaBlock(st, s[..8192]) + Table(st, s[8192..])
    ensures s == [] ==> Table(st, s) == []
  {
    hide MetaBlock;
  }

  /** The type an entry gives its node, and the type of the node's inode. */
  lemma KindsAre(n: Node)
    ensures KindCode(n) == if n.Dir? then 1 else if n.File? then 2 else 3
  {
  }
}
