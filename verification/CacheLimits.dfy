/** Where the data cache shows: an image, not one the writer makes, in which two files share a
    start but not a block length. */
module CacheLimits {
  import opened Bytes
  import opened Codecs
  import opened Metadata
  import opened Inodes
  import opened Directory
  import opened DirectoryRoundTrip
  import opened Data
  import opened Paths
  import opened Records
  import opened Tree
  import opened Layout
  import opened RoundTrip
  import opened Readers
  import opened Cache

  /** A stored string of which both a prefix and the whole decode, to different blocks. */
  ghost predicate TwoWays(codec: Codec, stored: seq<Byte>, m: nat, a: seq<Byte>, b: seq<Byte>) {
    && 0 < m < |stored| <= BLOCK_SIZE && a != b && 1 <= |a| <= BLOCK_SIZE && 1 <= |b| <= BLOCK_SIZE
    && codec.decompress(stored[..m], BLOCK_SIZE) == Some(a) && codec.decompress(stored, BLOCK_SIZE) == Some(b)
  }

  /** The names of the two files. */
  const FIRST: Name := [97]
  const SECOND: Name := [98]

  function Entries(): seq<DirEntry> {
    [DirEntry(FIRST, 0, 1, BASIC_FILE), DirEntry(SECOND, 36, 2, BASIC_FILE)]
  }

  function FileAt(num: nat, len: nat, word: nat): (r: seq<Byte>)
    ensures |r| == 36
  {
    FileRecord(0x1A4, num, SUPERBLOCK, INVALID_FRAG, 0, len, [word])
  }

  /** Two files and the root directory. */
  function Log(m: nat, n: nat, lenA: nat, lenB: nat): seq<Byte> {
    FileAt(1, lenA, m) + (FileAt(2, lenB, n) + DirRecord(0x1ED, 3, 0, 2, |EncodeListing(Entries())|, 0))
  }

  /** A superblock, the string, the inodes of two files of one block each, and a root directory
      that lists them: both files start right after the superblock, the first takes m bytes of
      the string, the second all of it. */
  function SharedStart(codec: Codec, header: seq<Byte>, stored: seq<Byte>, m: nat, lenA: nat, lenB: nat): FS {
    var st := Storage(true, codec);
    var inodes := Table(st, Log(m, |stored|, lenA, lenB));
    var image := header + stored + inodes + Table(st, EncodeListing(Entries()));
    var inodeTable := SUPERBLOCK + |stored|;
    FS(image, |image|, Superblock(BLOCK_SIZE, 0, 72, inodeTable, inodeTable + |inodes|, 0), codec)
  }

  function OneBlockFile(num: nat, len: nat, word: nat): Inode {
    Plain(BASIC_FILE, 0x1A4, num).(
      blocksStart := SUPERBLOCK, fragIdx := INVALID_FRAG, fragOffset := 0, size := len, blockSizes := [word])
  }

  function RootDir(): Inode {
    Plain(BASIC_DIR, 0x1ED, 3).(size := |EncodeListing(Entries())|)
  }

  lemma ListingOfTwo()
    ensures Listable(Entries()) && Short(Entries()) && |EncodeListing(Entries())| == 30
  {
    var es := Entries();
    assert Near(1, 2) && Near(2, 1) && Near(1, 1) && Near(2, 2);
    assert GroupLen(es) == 2 && es[..2] == es && es[2..] == [];
    assert es[1..] == [es[1]] && es[1..][1..] == [];
    assert EncodeEntries([], 1) == [];
    assert |EncodeEntries(es[1..], 1)| == 9;
    assert |EncodeEntries(es, 1)| == 18;
  }

  // ----- Reading it -----

  lemma FirstBlock(st: Storage, s: seq<Byte>, k: nat)
    requires k < META_MAX && k <= |s|
    ensures Floor(k) == 0 && BlockStart(st, s, k) == 0 && RefAt(st, s, k) == k
  {
    assert s[..0] == [];
  }

  lemma FileReads(fs: FS, st: Storage, s: seq<Byte>, k: nat, num: nat, len: nat, word: nat)
    requires TableAt(fs, st, fs.sb.inodeTable, s) && |fs.image| < 0x8000_0000_0000_0000
    requires fs.sb.blockSize == BLOCK_SIZE && Holds(s, k, FileAt(num, len, word)) && k < META_MAX
    requires num < TWO_32 && 1 <= len <= BLOCK_SIZE && word < TWO_32
    ensures ReadInode(fs, k) == Ok(OneBlockFile(num, len, word))
  {
    hide TableAt, ReadInode, Table, FileRecord, Floor, BlockStart, RefAt;
    FirstBlock(st, s, k);
    FileRecordDecodes(fs, st, s, k, 0x1A4, num, SUPERBLOCK, INVALID_FRAG, 0, len, [word]);
  }

  lemma RootReads(fs: FS, st: Storage, s: seq<Byte>)
    requires TableAt(fs, st, fs.sb.inodeTable, s) && TableAt(fs, st, fs.sb.dirTable, EncodeListing(Entries()))
    requires |fs.image| < 0x8000_0000_0000_0000 && fs.sb.blockSize == BLOCK_SIZE
    requires Holds(s, 72, DirRecord(0x1ED, 3, 0, 2, |EncodeListing(Entries())|, 0))
    ensures ReadInode(fs, 72) == Ok(RootDir()) && ReadDir(fs, RootDir()) == Ok(Entries())
  {
    hide TableAt, ReadInode, ReadDir, Table, DirRecord, Floor, BlockStart, RefAt, EncodeListing, Entries, Listable,
         Short;
    var listing := EncodeListing(Entries());
    ListingOfTwo();
    FirstBlock(st, s, 72);
    FirstBlock(st, listing, 0);
    DirRecordDecodes(fs, st, s, 72, 0x1ED, 3, 0, 2, |listing|, 0);
    assert ListingAt(fs, st, listing, 0, RootDir(), listing);
    ListingRoundTrip(fs, st, listing, 0, RootDir(), Entries());
  }

  lemma ImageReads(codec: Codec, header: seq<Byte>, stored: seq<Byte>, m: nat, lenA: nat, lenB: nat)
    requires Lawful(codec) && |header| == SUPERBLOCK && 0 < m < |stored| <= BLOCK_SIZE
    requires 1 <= lenA <= BLOCK_SIZE && 1 <= lenB <= BLOCK_SIZE
    ensures var fs := SharedStart(codec, header, stored, m, lenA, lenB);
            && ReadInode(fs, 72) == Ok(RootDir()) && ReadDir(fs, RootDir()) == Ok(Entries())
            && ReadInode(fs, 0) == Ok(OneBlockFile(1, lenA, m))
            && ReadInode(fs, 36) == Ok(OneBlockFile(2, lenB, |stored|))
            && Holds(fs.image, SUPERBLOCK, stored)
  {
    hide Lawful, ReadInode, ReadDir, Table, FileAt, DirRecord, OneBlockFile, RootDir, Entries, EncodeListing;
    var st, fs := Storage(true, codec), SharedStart(codec, header, stored, m, lenA, lenB);
    var log, listing := Log(m, |stored|, lenA, lenB), EncodeListing(Entries());
    var first, second, dir := FileAt(1, lenA, m), FileAt(2, lenB, |stored|), DirRecord(0x1ED, 3, 0, 2, |listing|, 0);
    ListingOfTwo();
    TableLength(st, log);
    TableLength(st, listing);
    assert Holds(log, 0, first + (second + dir));
    HoldsParts(log, 0, first, second + dir);
    HoldsParts(log, 36, second, dir);
    assert Holds(fs.image, fs.sb.inodeTable, Table(st, log)) && Holds(fs.image, fs.sb.dirTable, Table(st, listing));
    FileReads(fs, st, log, 0, 1, lenA, m);
    FileReads(fs, st, log, 36, 2, lenB, |stored|);
    RootReads(fs, st, log);
  }

  /** One step from the root to a file. */
  lemma PathReads(fs: FS, dir: Inode, es: seq<DirEntry>, i: nat, file: Inode)
    requires fs.sb.blockSize > 0 && ReadInode(fs, fs.sb.rootInode) == Ok(dir)
    requires dir.IsDir() && ReadDir(fs, dir) == Ok(es)
    requires i < |es| && ValidName(es[i].name) && forall j, k :: 0 <= j < k < |es| ==> es[j].name != es[k].name
    requires ReadInode(fs, es[i].ref) == Ok(file) && file.IsRegular()
    ensures Resolve(LookupOf(fs), es[i].name, true) == Ok(file)
  {
    hide ReadInode, ReadDir, Components, FindEntry;
    var img, parts := LookupOf(fs), [es[i].name];
    ComponentsOfName(es[i].name);
    FindDistinct(es, es, i);
    assert Child(img, dir, parts[0]) == Ok(file) && parts[1..] == [];
    assert Walk(img, dir, parts, true, 0) == Walk(img, file, parts[1..], true, 0) == Ok(file);
  }

  /** A file of one block, read without the cache. */
  lemma OneBlockReads(fs: FS, num: nat, len: nat, word: nat, block: seq<Byte>)
    requires fs.sb.blockSize == BLOCK_SIZE && 1 <= word <= BLOCK_SIZE && 1 <= |block| == len <= BLOCK_SIZE
    requires fs.size == |fs.image| && SUPERBLOCK + word <= |fs.image| && ReadBlock(fs, SUPERBLOCK, word) == Ok(block)
    ensures FileContents(fs, OneBlockFile(num, len, word), -1) == Ok(block)
    ensures BlockOffset(OneBlockFile(num, len, word), 0) == SUPERBLOCK
  {
    hide ReadBlock, Plain;
    var in0 := OneBlockFile(num, len, word);
    assert BlockOffset(in0, 0) == SUPERBLOCK;
    assert Part(fs, in0, 0) == Ok(block) by {
      assert block[..len] == block;
    }
    assert Parts(fs, in0, 0) == Ok([]) && [] + block == block;
    assert Parts(fs, in0, 1) == Ok(block);
    assert block + [] == block;
  }

  /** The path leads to a regular file of these contents, whose reader asks for this block. */
  ghost predicate ReaderOf(fs: FS, path: seq<Byte>, contents: seq<Byte>, req: Request)
    requires fs.sb.blockSize > 0
  {
    var r := Resolve(LookupOf(fs), path, true);
    && r.Ok? && r.value.IsRegular() && FileContents(fs, r.value, -1) == Ok(contents)
    && AsksFor(fs, r.value, req) && AskedFor(fs, req)
  }

  lemma PathAsks(fs: FS, path: seq<Byte>, num: nat, word: nat, block: seq<Byte>)
    requires fs.sb.blockSize == BLOCK_SIZE && 1 <= word <= BLOCK_SIZE && 1 <= |block| <= BLOCK_SIZE
    requires fs.size == |fs.image| && SUPERBLOCK + word <= |fs.image| && ReadBlock(fs, SUPERBLOCK, word) == Ok(block)
    requires Resolve(LookupOf(fs), path, true) == Ok(OneBlockFile(num, |block|, word))
    ensures ReaderOf(fs, path, block, Request(SUPERBLOCK, word))
  {
    hide ReadBlock, Resolve, FileContents, BlockOffset, LookupOf;
    var in0 := OneBlockFile(num, |block|, word);
    OneBlockReads(fs, num, |block|, word, block);
    assert in0.blockSizes[0] == word && AsksFor(fs, in0, Request(BlockOffset(in0, 0), in0.blockSizes[0]));
    assert AskedAt(fs, path, true, Request(SUPERBLOCK, word));
  }

  lemma PathsLead(codec: Codec, header: seq<Byte>, stored: seq<Byte>, m: nat, lenA: nat, lenB: nat)
    requires Lawful(codec) && |header| == SUPERBLOCK && 0 < m < |stored| <= BLOCK_SIZE
    requires 1 <= lenA <= BLOCK_SIZE && 1 <= lenB <= BLOCK_SIZE
    ensures var fs := SharedStart(codec, header, stored, m, lenA, lenB);
            && Resolve(LookupOf(fs), FIRST, true) == Ok(OneBlockFile(1, lenA, m))
            && Resolve(LookupOf(fs), SECOND, true) == Ok(OneBlockFile(2, lenB, |stored|))
  {
    hide Lawful, ReadInode, ReadDir, Table, Log, Resolve, RootDir, Components;
    var fs := SharedStart(codec, header, stored, m, lenA, lenB);
    ImageReads(codec, header, stored, m, lenA, lenB);
    RootIsDir();
    PathReads(fs, RootDir(), Entries(), 0, OneBlockFile(1, lenA, m));
    PathReads(fs, RootDir(), Entries(), 1, OneBlockFile(2, lenB, |stored|));
  }

  lemma PrefixReads(fs: FS, stored: seq<Byte>, word: nat, out: seq<Byte>)
    requires fs.sb.blockSize == BLOCK_SIZE && fs.size == |fs.image| && Holds(fs.image, SUPERBLOCK, stored)
    requires 1 <= word <= |stored| && word <= BLOCK_SIZE
    requires fs.codec.decompress(stored[..word], BLOCK_SIZE) == Some(out)
    ensures ReadBlock(fs, SUPERBLOCK, word) == Ok(out) && ReachesCache(fs, SUPERBLOCK, word)
  {
    assert fs.image[SUPERBLOCK..SUPERBLOCK + word] == fs.image[SUPERBLOCK..SUPERBLOCK + |stored|][..word];
  }

  lemma BlocksRead(codec: Codec, header: seq<Byte>, stored: seq<Byte>, m: nat, a: seq<Byte>, b: seq<Byte>)
    requires Lawful(codec) && |header| == SUPERBLOCK && TwoWays(codec, stored, m, a, b)
    ensures var fs := SharedStart(codec, header, stored, m, |a|, |b|);
            && fs.size == |fs.image| && SUPERBLOCK + |stored| <= |fs.image|
            && ReadBlock(fs, SUPERBLOCK, m) == Ok(a) && ReadBlock(fs, SUPERBLOCK, |stored|) == Ok(b)
            && ReachesCache(fs, SUPERBLOCK, m) && ReachesCache(fs, SUPERBLOCK, |stored|)
  {
    hide Lawful, Table, Log, ReadBlock, ReachesCache, ReadInode, ReadDir, OneBlockFile, RootDir, Entries;
    var fs := SharedStart(codec, header, stored, m, |a|, |b|);
    ImageReads(codec, header, stored, m, |a|, |b|);
    assert stored[..|stored|] == stored;
    PrefixReads(fs, stored, m, a);
    PrefixReads(fs, stored, |stored|, b);
  }

  /** Keying data blocks by offset alone is visible: for any codec under which some string decodes
      in two ways, both files read correctly by path without a cache, and with a cache of any
      size the reader of the second file is given the first file's block. */
  lemma SharedStartLies(codec: Codec, header: seq<Byte>, stored: seq<Byte>, m: nat, a: seq<Byte>, b: seq<Byte>,
                        cap: int)
    requires Lawful(codec) && |header| == SUPERBLOCK && TwoWays(codec, stored, m, a, b)
    ensures var fs := SharedStart(codec, header, stored, m, |a|, |b|);
            var req1, req2 := Request(SUPERBLOCK, m), Request(SUPERBLOCK, |stored|);
            var s := Cache.Run(DataSource(fs, cap), Collision(req1, req2));
            && ReaderOf(fs, FIRST, a, req1) && ReaderOf(fs, SECOND, b, req2)
            && 1 in s.readers && s.readers[1] == Done(req2, Ok(a)) && DataSource(fs, cap).decode(req2) == Ok(b)
            && !Transparent(DataSource(fs, cap), s)
  {
    hide Lawful, Table, Cache.Run, Collision, Log, ReaderOf, Resolve, ReadBlock, ReachesCache, OneBlockFile;
    var fs := SharedStart(codec, header, stored, m, |a|, |b|);
    PathsLead(codec, header, stored, m, |a|, |b|);
    BlocksRead(codec, header, stored, m, a, b);
    PathAsks(fs, FIRST, 1, m, a);
    PathAsks(fs, SECOND, 2, |stored|, b);
    CollisionShows(DataSource(fs, cap), Request(SUPERBLOCK, m), Request(SUPERBLOCK, |stored|));
  }

  lemma RootIsDir()
    ensures RootDir().IsDir()
  {
    hide EncodeListing;
  }

  /** There is such a codec. */
  lemma SomeCodecDecodesTwoWays() returns (codec: Codec)
    ensures Lawful(codec) && TwoWays(codec, [7, 7], 1, [7], [7, 7])
  {
    codec := Codec((x: seq<Byte>) => None, (x: seq<Byte>, limit: nat) => if |x| <= limit then Some(x) else None);
    forall x: seq<Byte>, limit: nat
      ensures LawfulOn(codec, x, limit)
    {
    }
    assert [7, 7][..1] == [7];
  }
}
