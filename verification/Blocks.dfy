/** Blocks of any origin, in the numbers of the format: metadata blocks, data blocks, sparse
    blocks, fragment entries and listing headers, well formed and not. */
module Blocks {
  import opened Bytes
  import opened Codecs
  import opened Metadata
  import opened Inodes
  import opened Data
  import opened OpenFiles
  import opened Directory

  // ----- Metadata blocks -----

  /** What decoding under a limit gives: the bytes themselves, or what the codec makes of them. */
  function Decoding(codec: Codec, stored: seq<Byte>, raw: bool, limit: nat): Result<seq<Byte>> {
    if raw then Ok(stored)
    else if codec.decompress(stored, limit).Some? then Ok(codec.decompress(stored, limit).value)
    else Err(Unreadable)
  }

  /** Two bytes of length, the top bit set for a raw block, and up to 8192 bytes. */
  lemma MetaBlockDecodes(fs: FS, at: int, stored: seq<Byte>, raw: bool)
    requires 1 <= |stored| <= 8192 && Holds(fs.image, at, LE16(|stored| + if raw then 0x8000 else 0) + stored)
    ensures var d := Decoding(fs.codec, stored, raw, 8192);
            ReadMetaBlock(fs, at) ==
            if d.Err? then Err(d.error) else Ok(MetaEntry(d.value, at + 2 + |stored|))
  {
    hide LE16, U16;
    var hdr := LE16(|stored| + if raw then 0x8000 else 0);
    HoldsParts(fs.image, at, hdr, stored);
    ReadRawHolds(fs.image, at, hdr);
    ReadRawHolds(fs.image, at + 2, stored);
  }

  /** A block that claims nothing or more than 8192 bytes is corrupt, one that is not all there
      cannot be read. */
  lemma MetaBlockRefused(fs: FS, at: int, h: nat)
    requires h < TWO_16 && Holds(fs.image, at, LE16(h))
    ensures h % 0x8000 == 0 || h % 0x8000 > 8192 ==> ReadMetaBlock(fs, at) == Err(Corrupt)
    ensures 1 <= h % 0x8000 <= 8192 && at + 2 + h % 0x8000 > |fs.image| ==> ReadMetaBlock(fs, at) == Err(Unreadable)
  {
    hide LE16, U16;
    ReadRawHolds(fs.image, at, LE16(h));
  }

  /** A cursor may be opened anywhere in a block, its very end included, and nowhere past it. */
  lemma CursorOpens(fs: FS, at: int, inBlock: nat, e: MetaEntry)
    requires ReadMetaBlock(fs, at) == Ok(e)
    ensures OpenCursor(fs, at, inBlock) ==
            if inBlock <= |e.data| then Ok(Cursor(e.next, e.data, inBlock)) else Err(Corrupt)
  {
    hide ReadMetaBlock;
  }

  /** At the end of a block the next one is loaded, and must not be empty. */
  lemma CursorGoesOn(fs: FS, c: Cursor, e: MetaEntry)
    requires c.pos >= |c.cur| && ReadMetaBlock(fs, c.next) == Ok(e)
    ensures ReadByte(fs, c) == if e.data == [] then Err(UnexpectedEOF) else Ok((e.data[0], Cursor(e.next, e.data, 1)))
  {
    hide ReadMetaBlock;
  }

  /** A reference is a block offset of 48 bits and an offset of 16. */
  lemma ReferenceParts(block: nat, inBlock: nat)
    requires inBlock < 0x1_0000
    ensures RefBlock(block * 0x1_0000 + inBlock) == block && RefOffset(block * 0x1_0000 + inBlock) == inBlock
  {
  }

  // ----- Data blocks -----

  /** A data block on disk: a size word with its length, bit 24 set for a raw block. */
  lemma DataBlockDecodes(fs: FS, off: int, stored: seq<Byte>, raw: bool)
    requires 1 <= |stored| <= fs.sb.blockSize && |stored| < 0x100_0000 && Holds(fs.image, off, stored)
    requires fs.size <= 0 || 0 <= off <= fs.size - |stored|
    ensures ReadBlock(fs, off, |stored| + if raw then 0x100_0000 else 0) ==
            Decoding(fs.codec, stored, raw, fs.sb.blockSize)
  {
    ReadRawHolds(fs.image, off, stored);
  }

  /** Only bit 24 is cleared: the bits above it make the length larger. */
  lemma SizeWordBits(low: nat, high: nat, raw: bool)
    requires low < 0x100_0000
    ensures var word := 0x200_0000 * high + (if raw then 0x100_0000 else 0) + low;
            IsRaw(word) == raw && OnDisk(word) == 0x200_0000 * high + low
  {
  }

  /** A block larger than the block size or outside the image is corrupt; one without bytes is
      empty whatever is at its offset. */
  lemma DataBlockRefused(fs: FS, off: int, n: nat, raw: bool)
    requires n < 0x100_0000
    ensures var word := n + if raw then 0x100_0000 else 0;
            && (n == 0 ==> ReadBlock(fs, off, word) == Ok([]))
            && (n > fs.sb.blockSize ==> n == 0 || ReadBlock(fs, off, word) == Err(Corrupt))
            && (n > 0 && fs.size > 0 && (off < 0 || off + n > fs.size) ==> ReadBlock(fs, off, word) == Err(Corrupt))
  {
  }

  /** The bytes of a sparse block, of length 0 with bit 24 set or not, are zeros. */
  lemma SparseBytes(fs: FS, in0: Inode, i: nat, k: nat)
    requires fs.sb.blockSize > 0 && i < |in0.blockSizes| && in0.blockSizes[i] in {0, 0x100_0000}
    requires i * fs.sb.blockSize <= k < in0.size && k < i * fs.sb.blockSize + fs.sb.blockSize
    ensures FileByte(fs, in0, k) == Ok(0)
  {
    hide FileByte;
    var part := Part(fs, in0, i);
    FileByteInBlock(fs, in0, i, k);
  }

  /** The bytes of any other block are those its data decodes to; too few of them are corrupt. */
  lemma StoredBytes(fs: FS, in0: Inode, i: nat, k: nat, block: seq<Byte>)
    requires fs.sb.blockSize > 0 && i < |in0.blockSizes| && in0.blockSizes[i] !in {0, 0x100_0000}
    requires i * fs.sb.blockSize <= k < in0.size && k < i * fs.sb.blockSize + fs.sb.blockSize
    requires ReadBlock(fs, BlockOffset(in0, i), in0.blockSizes[i]) == Ok(block)
    ensures var logical := Min(fs.sb.blockSize, in0.size - i * fs.sb.blockSize);
            FileByte(fs, in0, k) == if |block| < logical then Err(Corrupt) else Ok(block[k - i * fs.sb.blockSize])
  {
    hide FileByte, ReadBlock, BlockOffset;
    var part := Part(fs, in0, i);
    FileByteInBlock(fs, in0, i, k);
  }

  /** Blocks follow each other: each starts where the one before it ends. */
  lemma BlocksAreAdjacent(in0: Inode, i: nat, n: nat, raw: bool)
    requires i < |in0.blockSizes| && n < 0x100_0000 && in0.blockSizes[i] == n + if raw then 0x100_0000 else 0
    requires 0 <= BlockOffset(in0, i) && BlockOffset(in0, i) + n < 0x8000_0000_0000_0000
    ensures BlockOffset(in0, i + 1) == BlockOffset(in0, i) + n
    ensures in0.blocksStart < 0x8000_0000_0000_0000 ==> BlockOffset(in0, 0) == in0.blocksStart
  {
    hide OffsetAfter;
    OffsetSteps(in0, i);
    OffsetStart(in0);
  }

  // ----- Fragments -----

  /** Entry idx is the idx % 512-th of 16 bytes in the block that pointer idx / 512 names. */
  lemma FragmentEntryDecodes(fs: FS, idx: nat, ptr: nat, e: MetaEntry, start: nat, word: nat, unused: nat)
    requires idx < fs.sb.fragCount && fs.sb.fragTable + 8 * (idx / 512) + 8 <= |fs.image| < 0x8000_0000_0000_0000
    requires ptr < |fs.image| && Holds(fs.image, fs.sb.fragTable + 8 * (idx / 512), LE64(ptr))
    requires ReadMetaBlock(fs, ptr) == Ok(e)
    requires Holds(e.data, 16 * (idx % 512), LE64(start) + LE32(word) + LE32(unused))
    requires start < TWO_64 && word < TWO_32
    ensures ReadFragmentEntry(fs, idx) == Ok(FragEntry(start, word))
  {
    hide LE64, LE32, U64, U32, I64, ReadMetaBlock;
    var at, o := fs.sb.fragTable + 8 * (idx / 512), 16 * (idx % 512);
    ReadRawHolds(fs.image, at, LE64(ptr));
    InRange64(at);
    InRange64(fs.sb.fragTable);
    InRange64(ptr);
    HoldsParts(e.data, o, LE64(start) + LE32(word), LE32(unused));
    HoldsParts(e.data, o, LE64(start), LE32(word));
  }

  lemma InRange64(x: int)
    requires 0 <= x < 0x8000_0000_0000_0000
    ensures I64(x) == x
  {
  }

  /** A pointer that is not there cannot be read, a block that cannot be read is the error of its
      entries, and an entry past the end of its block is corrupt. */
  lemma FragmentEntryRefused(fs: FS, idx: nat, ptr: nat)
    requires idx < fs.sb.fragCount && fs.sb.fragTable + 8 * (idx / 512) < 0x8000_0000_0000_0000
    ensures fs.sb.fragTable + 8 * (idx / 512) + 8 > |fs.image| ==> ReadFragmentEntry(fs, idx) == Err(Unreadable)
    ensures ptr < 0x8000_0000_0000_0000 && Holds(fs.image, fs.sb.fragTable + 8 * (idx / 512), LE64(ptr)) ==>
              var block := ReadMetaBlock(fs, ptr);
              && (block.Err? ==> ReadFragmentEntry(fs, idx) == Err(block.error))
              && (block.Ok? && 16 * (idx % 512) + 16 > |block.value.data| ==>
                    ReadFragmentEntry(fs, idx) == Err(Corrupt))
  {
    hide LE64, U64, U32, I64, ReadMetaBlock;
    var at := fs.sb.fragTable + 8 * (idx / 512);
    InRange64(at);
    InRange64(fs.sb.fragTable);
    if ptr < 0x8000_0000_0000_0000 && Holds(fs.image, at, LE64(ptr)) {
      ReadRawHolds(fs.image, at, LE64(ptr));
      InRange64(ptr);
    }
  }

  lemma NoSuchFragment(fs: FS, idx: nat)
    requires idx >= fs.sb.fragCount
    ensures ReadFragmentEntry(fs, idx) == Err(Corrupt) && ReadFragment(fs, idx) == Err(Corrupt)
  {
  }

  /** The tail of a file is the part of its fragment that starts at its offset. */
  lemma TailBytes(fs: FS, in0: Inode, k: nat, frag: seq<Byte>)
    requires fs.sb.blockSize > 0 && |in0.blockSizes| * fs.sb.blockSize <= k < in0.size
    ensures in0.fragIdx == 0xFFFF_FFFF ==> FileByte(fs, in0, k) == Err(Corrupt)
    ensures in0.fragIdx != 0xFFFF_FFFF && ReadFragment(fs, in0.fragIdx) == Ok(frag) ==>
              var tail := in0.size - |in0.blockSizes| * fs.sb.blockSize;
              FileByte(fs, in0, k) ==
              if in0.fragOffset + tail > |frag| then Err(Corrupt)
              else Ok(frag[in0.fragOffset + (k - |in0.blockSizes| * fs.sb.blockSize)])
  {
    hide FileByte, ReadFragment;
    FileByteInTail(fs, in0, k);
  }

  // ----- Listings -----

  /** A header of 12 bytes: the number of entries less one, a block, an inode number. */
  lemma HeaderDecodes(fs: FS, p: Parse, c: Cursor, count: nat, block: nat, base: nat)
    requires 1 <= count < TWO_32 && block < TWO_32 && base < TWO_32
    requires ReadBytes(fs, p.c, 12) == Ok((LE32(count - 1) + LE32(block) + LE32(base), c))
    ensures ParseHeader(fs, p) ==
            if count > 256 then Err(Corrupt)
            else ParseGroup(fs, Parse(p.out, c, p.remaining - 12), count, block,
                            if base < 0x8000_0000 then base else base - 0x1_0000_0000)
  {
    hide ReadBytes, ParseGroup, LE32, U32;
    var hdr := LE32(count - 1) + LE32(block) + LE32(base);
    assert hdr[0..4] == LE32(count - 1) && hdr[4..8] == LE32(block) && hdr[8..12] == LE32(base);
  }

  /** An entry of 8 bytes and a name: an offset in the block, a signed step from the base, a type,
      the length of the name less one. At most 4194304 entries are read. */
  lemma EntryDecodes(fs: FS, p: Parse, c1: Cursor, c2: Cursor, block: nat, base: int,
                     offset: nat, step: nat, etype: nat, name: seq<Byte>)
    requires 1 <= |name| < TWO_16 && offset < TWO_16 && step < TWO_16 && etype < TWO_16
    requires ReadBytes(fs, p.c, 8) == Ok((LE16(offset) + LE16(step) + LE16(etype) + LE16(|name| - 1), c1))
    requires ReadBytes(fs, c1, |name|) == Ok((name, c2))
    ensures var signed := if step < 0x8000 then step else step - 0x1_0000;
            var e := DirEntry(name, block * 0x1_0000 + offset, (base + signed) % 0x1_0000_0000, etype);
            ParseEntry(fs, p, block, base) ==
            if |name| > 256 || 8 + |name| > p.remaining then Err(Corrupt)
            else if |p.out| >= 4194304 then Err(TooLarge)
            else Ok(Parse(p.out + [e], c2, p.remaining - 8 - |name|))
  {
    hide ReadBytes, LE16, U16;
    var eh := LE16(offset) + LE16(step) + LE16(etype) + LE16(|name| - 1);
    assert eh[0..2] == LE16(offset) && eh[2..4] == LE16(step) && eh[4..6] == LE16(etype);
    assert eh[6..8] == LE16(|name| - 1);
  }

  /** Reading goes on while there is room for a header, and within a group for an entry. */
  lemma ListingEnds(fs: FS, p: Parse, count: nat, block: nat, base: int)
    ensures p.remaining < 12 ==> ParseListing(fs, p) == Ok(p.out)
    ensures p.remaining >= 12 && ParseHeader(fs, p).Err? ==> ParseListing(fs, p) == Err(ParseHeader(fs, p).error)
    ensures p.remaining < 8 || count == 0 ==> ParseGroup(fs, p, count, block, base) == Ok(p)
    ensures p.remaining >= 8 && count > 0 && ParseEntry(fs, p, block, base).Err? ==>
              ParseGroup(fs, p, count, block, base) == Err(ParseEntry(fs, p, block, base).error)
  {
    hide ParseHeader, ParseEntry;
  }

  /** A directory without bytes is empty, whatever else its inode says; any other is read from
      its place in the directory table. */
  lemma DirectoryDecodes(fs: FS, dir: Inode, c: Cursor)
    requires fs.sb.dirTable + dir.dirStartBlock < 0x8000_0000_0000_0000
    ensures dir.size == 0 ==> ReadDir(fs, dir) == Ok([])
    ensures dir.size > 0 && OpenCursor(fs, fs.sb.dirTable + dir.dirStartBlock, dir.dirOffset) == Ok(c) ==>
              ReadDir(fs, dir) == ParseListing(fs, Parse([], c, dir.size))
  {
    hide OpenCursor, ParseListing;
  }
}
