/** Reading back what the writer wrote: from a sealed image to the nodes of the tree. */
module RoundTrip {
  import opened Bytes
  import opened Codecs
  import opened Metadata
  import opened Inodes
  import opened Data
  import opened Directory
  import opened DirectoryRoundTrip
  import opened OpenFiles
  import opened Paths
  import opened Tree
  import opened Layout
  import opened Records
  import opened Placement

  /** A finished image of the run that ended in w: both tables in place, every data block
      where it was written, the fragment table readable, nothing pending. */
  ghost predicate Sealed(fs: FS, st: Storage, w: Snapshot) {
    && Valid(st, w) && fs.codec == st.codec && fs.sb.blockSize == BLOCK_SIZE && fs.sb.fragCount < TWO_32
    && |fs.image| < 0x8000_0000_0000_0000 && |w.data| <= |fs.image|
    && (fs.size <= 0 || fs.size == |fs.image|)
    && TableAt(fs, st, fs.sb.inodeTable, w.inodeLog)
    && TableAt(fs, st, fs.sb.dirTable, w.dirLog)
    && (forall o :: o in w.blocks ==> Holds(fs.image, o, Keep(st, w.blocks[o]).bytes))
    && w.fragBuf == []
    && forall i :: 0 <= i < |w.fragEntries| ==> ReadFragmentEntry(fs, i) == Ok(w.fragEntries[i])
  }

  // ----- Data blocks -----

  /** A data block is read back from its offset with its size word. */
  lemma BlockReadsBack(fs: FS, st: Storage, w: Snapshot, o: nat)
    requires Sealed(fs, st, w) && o in w.blocks
    ensures ReadBlock(fs, o, WordOf(st, w.blocks[o])) == Ok(w.blocks[o])
    ensures OnDisk(WordOf(st, w.blocks[o])) > 0 && o + OnDisk(WordOf(st, w.blocks[o])) <= |w.data|
  {
    hide Lawful, TableAt, ReadFragmentEntry, OnDisk, IsRaw, Spaced, FragOk, WordOf;
    var payload := w.blocks[o];
    assert BlockOk(st, w.data, o, payload);
    var kept := Keep(st, payload);
    ReadRawHolds(fs.image, o, kept.bytes);
    KeepNonEmpty(st, payload);
    KeepUnpack(st, payload, BLOCK_SIZE);
    WordFacts(st, payload);
  }

  lemma WordFacts(st: Storage, payload: seq<Byte>)
    requires |payload| <= BLOCK_SIZE
    ensures OnDisk(WordOf(st, payload)) == |Keep(st, payload).bytes|
    ensures IsRaw(WordOf(st, payload)) == !Keep(st, payload).compressed && WordOf(st, payload) < TWO_32
  {
  }

  /** A fragment is read back through the fragment table. */
  lemma FragmentReadsBack(fs: FS, st: Storage, w: Snapshot, idx: nat, off: nat, tail: seq<Byte>)
    requires Sealed(fs, st, w) && FragHolds(w, idx, off, tail) && tail != []
    ensures idx < |w.fragEntries|
    ensures ReadFragment(fs, idx).Ok? && Holds(ReadFragment(fs, idx).value, off, tail)
  {
    hide ReadBlock, ReadFragmentEntry, TableAt, Lawful, WordOf, Spaced, BlockOk, I64;
    FragPromiseEmitted(w, idx, off, tail);
    var fe := w.fragEntries[idx];
    assert FragOk(st, w, fe);
    BlockReadsBack(fs, st, w, fe.start);
    SmallI64(fe.start);
  }

  lemma SmallI64(x: int)
    requires 0 <= x < 0x8000_0000_0000_0000
    ensures I64(x) == x
  {
  }

  // ----- Files -----

  /** The inode a stored file decodes to: its start is cut to 32 bits. */
  function FileInode(perm: nat, data: seq<Byte>, p: Placed): Inode
    requires p.PFile?
  {
    Plain(BASIC_FILE, perm, Number(p.id)).(
      blocksStart := p.start % TWO_32, fragIdx := p.fragIdx, fragOffset := p.fragOff, size := |data|,
      blockSizes := p.words)
  }

  /** Writer and reader agree on the number of blocks, with and without a fragment. */
  lemma BlockCountsAgree(frags: bool, data: seq<Byte>, count: nat, hasFrag: bool)
    requires |data| < TWO_32 && hasFrag == (FullLen(frags, data) < |data|)
    requires count * BLOCK_SIZE < FullLen(frags, data) + BLOCK_SIZE && FullLen(frags, data) <= count * BLOCK_SIZE
    ensures count == BlockCount(|data|, BLOCK_SIZE, hasFrag) && count <= MAX_BLOCKS
  {
  }

  lemma SmallWords(st: Storage, w: Snapshot, start: nat, words: seq<nat>, data: seq<Byte>)
    requires FileBlocks(st, w, start, words, data)
    ensures forall i :: 0 <= i < |words| ==> words[i] < TWO_32
  {
    hide OnDisk, IsRaw, DiskBytes, WordOf;
    forall i | 0 <= i < |words|
      ensures words[i] < TWO_32
    {
      assert FileBlock(st, w, start, words, data, i);
      WordFacts(st, Chunk(data, i));
    }
  }

  /** An index the fragment table answers for is not the one that means no fragment. */
  lemma FragIndexFits(fs: FS, idx: nat)
    requires ReadFragmentEntry(fs, idx).Ok? && fs.sb.fragCount < TWO_32
    ensures idx < INVALID_FRAG
  {
  }

  lemma FragOffsetFits(st: Storage, w: Snapshot, idx: nat, off: nat, tail: seq<Byte>)
    requires Valid(st, w) && FragHolds(w, idx, off, tail)
    ensures off <= BLOCK_SIZE
  {
    hide Lawful, WordOf, Spaced;
    if idx < |w.fragEntries| {
      assert FragOk(st, w, w.fragEntries[idx]);
      assert BlockOk(st, w.data, w.fragEntries[idx].start, w.blocks[w.fragEntries[idx].start]);
    }
  }

  /** The inode record of a stored file is complete: the size fits its field. */
  ghost predicate FileFits(fs: FS, frags: bool, st: Storage, w: Snapshot, perm: nat, data: seq<Byte>, p: Placed) {
    && Sealed(fs, st, w) && StoredFile(frags, st, w, perm, data, p) && RefFits(st, w, p)
    && |data| < TWO_32 && perm < 0x1000
  }

  /** ... and its data blocks, if it has any, start where the record says. */
  ghost predicate FileReady(fs: FS, frags: bool, st: Storage, w: Snapshot, perm: nat, data: seq<Byte>, p: Placed) {
    FileFits(fs, frags, st, w, perm, data, p) && (p.words == [] || p.start < TWO_32)
  }

  lemma FragFields(fs: FS, frags: bool, st: Storage, w: Snapshot, perm: nat, data: seq<Byte>, p: Placed)
    requires FileFits(fs, frags, st, w, perm, data, p)
    ensures p.fragIdx < TWO_32 && p.fragOff < TWO_32
    ensures p.fragIdx == INVALID_FRAG <==> FullLen(frags, data) == |data|
  {
    hide TableAt, ReadFragmentEntry, FileBlocks, FileRecord, FragHolds, Valid, BlockStart;
    var full := FullLen(frags, data);
    if full < |data| {
      FragPromiseEmitted(w, p.fragIdx, p.fragOff, data[full..]);
      assert ReadFragmentEntry(fs, p.fragIdx) == Ok(w.fragEntries[p.fragIdx]);
      FragIndexFits(fs, p.fragIdx);
      FragOffsetFits(st, w, p.fragIdx, p.fragOff, data[full..]);
    }
  }

  lemma StoredFileDecodes(fs: FS, frags: bool, st: Storage, w: Snapshot, perm: nat, data: seq<Byte>, p: Placed)
    requires FileFits(fs, frags, st, w, perm, data, p)
    ensures ReadInode(fs, RefOf(st, w, p)) == Ok(FileInode(perm, data, p))
    ensures Decoded(FileInode(perm, data, p), BLOCK_SIZE)
  {
    hide TableAt, ReadFragmentEntry, FileBlocks, FileRecord, Table, FragHolds, Valid, ReadInode, BlockCount, RefAt,
         BlockStart, Plain;
    var full := FullLen(frags, data);
    FragFields(fs, frags, st, w, perm, data, p);
    SmallWords(st, w, p.start, p.words, data[..full]);
    FileBlocksCount(st, w, p.start, p.words, data[..full]);
    BlockCountsAgree(frags, data, |p.words|, full < |data|);
    assert RecordAt(fs, st, w.inodeLog, w.starts[p.id],
                    FileRecord(perm, Number(p.id), p.start, p.fragIdx, p.fragOff, |data|, p.words));
    FileRecordDecodes(fs, st, w.inodeLog, w.starts[p.id], perm, Number(p.id), p.start, p.fragIdx, p.fragOff, |data|,
                      p.words);
  }

  /** write.go cuts the start of a file's blocks to 32 bits without a check: the inode comes back
      with the start it was given if and only if that is below 4 GiB. */
  lemma FileStartIff(fs: FS, frags: bool, st: Storage, w: Snapshot, perm: nat, data: seq<Byte>, p: Placed)
    requires FileFits(fs, frags, st, w, perm, data, p)
    ensures ReadInode(fs, RefOf(st, w, p)) == Ok(FileInode(perm, data, p).(blocksStart := p.start)) <==>
            p.start < TWO_32
  {
    hide ReadInode, RefOf, Sealed, StoredFile, RefFits, Plain;
    StoredFileShape(frags, st, w, perm, data, p);
    StoredFileDecodes(fs, frags, st, w, perm, data, p);
  }

  lemma FileBlocksCount(st: Storage, w: Snapshot, start: nat, words: seq<nat>, data: seq<Byte>)
    requires FileBlocks(st, w, start, words, data)
    ensures |words| * BLOCK_SIZE < |data| + BLOCK_SIZE && |data| <= |words| * BLOCK_SIZE
  {
  }

  /** The reader's running sum lands on the start of each of the file's blocks. */
  lemma {:induction false} OffsetsLand(fs: FS, st: Storage, w: Snapshot, start: nat, words: seq<nat>, data: seq<Byte>,
                                       i: nat)
    requires Sealed(fs, st, w) && FileBlocks(st, w, start, words, data) && start <= |w.data| && i <= |words|
    ensures OffsetAfter(start, words[..i]) == start + DiskBytes(words[..i]) <= |w.data|
    decreases i
  {
    hide TableAt, ReadFragmentEntry, Valid, WordOf, OnDisk, I64, Chunk;
    if i > 0 {
      OffsetsLand(fs, st, w, start, words, data, i - 1);
      assert words[..i][..i - 1] == words[..i - 1];
      assert FileBlock(st, w, start, words, data, i - 1);
      BlockReadsBack(fs, st, w, start + DiskBytes(words[..i - 1]));
      SmallI64(start + DiskBytes(words[..i]));
    }
  }

  lemma BlockOffsetIs(fs: FS, frags: bool, st: Storage, w: Snapshot, perm: nat, data: seq<Byte>, p: Placed, i: nat)
    requires FileReady(fs, frags, st, w, perm, data, p) && i < |p.words|
    ensures BlockOffset(FileInode(perm, data, p), i) == p.start + DiskBytes(p.words[..i])
  {
    hide Sealed, FileRecord, Table, FragHolds, OffsetAfter, I64, DiskBytes, FileBlocks, Plain, FullLen;
    OffsetsLand(fs, st, w, p.start, p.words, data[..FullLen(frags, data)], i);
    SmallI64(p.start);
  }

  /** Logical block i of a stored file is block i of its data. */
  lemma PartReadsBack(fs: FS, frags: bool, st: Storage, w: Snapshot, perm: nat, data: seq<Byte>, p: Placed, i: nat)
    requires FileReady(fs, frags, st, w, perm, data, p) && i < |p.words|
    ensures i * BLOCK_SIZE < |data|
    ensures Part(fs, FileInode(perm, data, p), i) == Ok(data[i * BLOCK_SIZE..Min((i + 1) * BLOCK_SIZE, |data|)])
  {
    hide FileReady, ReadBlock, BlockOffset, OnDisk, FullLen, Chunk, Plain;
    FileReadyBlockSize(fs, frags, st, w, perm, data, p);
    StoredBlockReads(fs, frags, st, w, perm, data, p, i);
    ChunkIsWhole(frags, data, i);
    var in0, chunk := FileInode(perm, data, p), Chunk(data[..FullLen(frags, data)], i);
    assert Logical(fs, in0, i) == |chunk| && chunk[..|chunk|] == chunk;
  }

  lemma StoredBlockReads(fs: FS, frags: bool, st: Storage, w: Snapshot, perm: nat, data: seq<Byte>, p: Placed, i: nat)
    requires FileReady(fs, frags, st, w, perm, data, p) && i < |p.words|
    ensures i * BLOCK_SIZE < FullLen(frags, data) && OnDisk(p.words[i]) > 0
    ensures ReadBlock(fs, BlockOffset(FileInode(perm, data, p), i), p.words[i]) ==
            Ok(Chunk(data[..FullLen(frags, data)], i))
  {
    hide Sealed, FileRecord, FragHolds, WordOf, OnDisk, ReadBlock, BlockOffset, DiskBytes, Holds, FullLen, Chunk, Plain,
         BlockStart;
    assert FileBlock(st, w, p.start, p.words, data[..FullLen(frags, data)], i);
    BlockOffsetIs(fs, frags, st, w, perm, data, p, i);
    BlockReadsBack(fs, st, w, p.start + DiskBytes(p.words[..i]));
  }

  lemma ChunkIsWhole(frags: bool, data: seq<Byte>, i: nat)
    requires i * BLOCK_SIZE < FullLen(frags, data)
    ensures i * BLOCK_SIZE < |data|
    ensures Chunk(data[..FullLen(frags, data)], i) == data[i * BLOCK_SIZE..Min((i + 1) * BLOCK_SIZE, |data|)]
  {
    assert frags ==> (i + 1) * BLOCK_SIZE <= FullLen(frags, data);
  }

  lemma TailReadsBack(fs: FS, frags: bool, st: Storage, w: Snapshot, perm: nat, data: seq<Byte>, p: Placed, k: nat)
    requires FileReady(fs, frags, st, w, perm, data, p)
    requires |p.words| * BLOCK_SIZE <= k < |data|
    ensures TailByte(fs, FileInode(perm, data, p), k) == Ok(data[k])
  {
    hide TableAt, ReadFragmentEntry, FileRecord, Table, FragHolds, Valid, ReadFragment, FileBlock;
    var full := FullLen(frags, data);
    FileBlocksCount(st, w, p.start, p.words, data[..full]);
    assert full == |p.words| * BLOCK_SIZE;
    FragFields(fs, frags, st, w, perm, data, p);
    FragmentReadsBack(fs, st, w, p.fragIdx, p.fragOff, data[full..]);
    var frag := ReadFragment(fs, p.fragIdx).value;
    assert frag[p.fragOff..p.fragOff + |data[full..]|][k - full] == data[full..][k - full];
  }

  lemma ByteReadsBack(fs: FS, frags: bool, st: Storage, w: Snapshot, perm: nat, data: seq<Byte>, p: Placed, k: nat)
    requires FileReady(fs, frags, st, w, perm, data, p) && k < |data| && fs.sb.blockSize == BLOCK_SIZE && p.PFile?
    ensures FileByte(fs, FileInode(perm, data, p), k) == Ok(data[k])
  {
    hide FileReady, FileByte, Part, TailByte, Plain;
    var in0 := FileInode(perm, data, p);
    if k < |p.words| * BLOCK_SIZE {
      var i := k / BLOCK_SIZE;
      PartReadsBack(fs, frags, st, w, perm, data, p, i);
      FileByteInBlock(fs, in0, i, k);
    } else {
      TailReadsBack(fs, frags, st, w, perm, data, p, k);
      FileByteInTail(fs, in0, k);
    }
  }

  /** A stored file is read back byte for byte: full blocks, short last block, fragment. */
  lemma FileReadsBack(fs: FS, frags: bool, st: Storage, w: Snapshot, perm: nat, data: seq<Byte>, p: Placed)
    requires FileReady(fs, frags, st, w, perm, data, p)
    ensures p.PFile?
    ensures FileContents(fs, FileInode(perm, data, p), -1) == Ok(data)
  {
    hide FileReady, Decoded, FileByte, FileContents, Plain, ReadInode, RefOf;
    FileReadyBlockSize(fs, frags, st, w, perm, data, p);
    var in0 := FileInode(perm, data, p);
    StoredFileDecodes(fs, frags, st, w, perm, data, p);
    forall k | 0 <= k < |data|
      ensures FileByte(fs, in0, k) == Ok(data[k])
    {
      ByteReadsBack(fs, frags, st, w, perm, data, p, k);
    }
    WholeFileByBytes(fs, in0, data);
  }

  lemma FileReadyBlockSize(fs: FS, frags: bool, st: Storage, w: Snapshot, perm: nat, data: seq<Byte>, p: Placed)
    requires FileReady(fs, frags, st, w, perm, data, p)
    ensures fs.sb.blockSize == BLOCK_SIZE && p.PFile? && Seated(w, p) && FileFits(fs, frags, st, w, perm, data, p)
  {
  }

  // ----- Links and directories -----

  lemma StoredLinkDecodes(fs: FS, st: Storage, w: Snapshot, perm: nat, target: seq<Byte>, p: Placed)
    requires Sealed(fs, st, w) && RefFits(st, w, p) && StoredLink(w, perm, target, p)
    requires perm < 0x1000 && |target| <= META_MAX
    ensures ReadInode(fs, RefOf(st, w, p)) == Ok(LinkInode(perm, target, p))
  {
    hide TableAt, ReadFragmentEntry, Valid, Table, ReadInode, RefAt, BlockStart, Plain, LinkRecord;
    assert RecordAt(fs, st, w.inodeLog, w.starts[p.id], LinkRecord(perm, Number(p.id), target));
    LinkRecordDecodes(fs, st, w.inodeLog, w.starts[p.id], perm, Number(p.id), target);
  }

  function LinkInode(perm: nat, target: seq<Byte>, p: Placed): Inode {
    Plain(BASIC_SYMLINK, perm, Number(p.id)).(target := target, size := |target|)
  }

  function DirInode(st: Storage, w: Snapshot, perm: nat, kids: seq<Kid>, p: Placed): Inode
    requires p.PDir? && |p.kids| == |kids| && AllSeated(w, p.kids) && p.dirPos <= |w.dirLog|
  {
    Plain(BASIC_DIR, perm, Number(p.id)).(
      dirStartBlock := RefBlock(RefAt(st, w.dirLog, p.dirPos)) % TWO_32,
      dirOffset := RefOffset(RefAt(st, w.dirLog, p.dirPos)),
      size := DirDataSize((|ListingOf(st, w, kids, p.kids)| + 3) % TWO_16))
  }

  lemma StoredDirDecodes(fs: FS, st: Storage, w: Snapshot, perm: nat, kids: seq<Kid>, p: Placed)
    requires Sealed(fs, st, w) && RefFits(st, w, p) && StoredDir(st, w, perm, kids, p) && perm < 0x1000
    ensures ReadInode(fs, RefOf(st, w, p)) == Ok(DirInode(st, w, perm, kids, p))
  {
    hide TableAt, ReadFragmentEntry, Valid, Table, ReadInode, RefAt, BlockStart, Plain, DirRecord, ListingOf, AllSeated,
         DirDataSize, RefBlock, RefOffset;
    OffsetIsSmall(RefAt(st, w.dirLog, p.dirPos));
    var listing, at := ListingOf(st, w, kids, p.kids), RefAt(st, w.dirLog, p.dirPos);
    assert RecordAt(fs, st, w.inodeLog, w.starts[p.id],
                    DirRecord(perm, Number(p.id), RefBlock(at), |kids|, |listing|, RefOffset(at)));
    DirRecordDecodes(fs, st, w.inodeLog, w.starts[p.id], perm, Number(p.id), RefBlock(at), |kids|, |listing|,
                     RefOffset(at));
  }

  lemma OffsetIsSmall(ref: nat)
    ensures RefOffset(ref) % TWO_16 == RefOffset(ref)
  {
  }

  /** write.go cuts the block of a listing to 32 bits without a check: the directory inode comes
      back with the block its listing starts in if and only if that is below 4 GiB. */
  lemma DirStartIff(fs: FS, st: Storage, w: Snapshot, perm: nat, kids: seq<Kid>, p: Placed)
    requires Sealed(fs, st, w) && RefFits(st, w, p) && StoredDir(st, w, perm, kids, p) && perm < 0x1000
    ensures var start := BlockStart(st, w.dirLog, p.dirPos);
            ReadInode(fs, RefOf(st, w, p)) == Ok(DirInode(st, w, perm, kids, p).(dirStartBlock := start)) <==>
            start < TWO_32
  {
    hide Sealed, ReadInode, RefOf, RefFits, ListingOf, Plain, DirDataSize, RefAt, RefBlock, RefOffset, BlockStart;
    StoredDirDecodes(fs, st, w, perm, kids, p);
    DirInodeStart(st, w, perm, kids, p);
    if BlockStart(st, w.dirLog, p.dirPos) < TWO_32 {
      RefParts(st, w.dirLog, p.dirPos);
    }
  }

  lemma DirInodeStart(st: Storage, w: Snapshot, perm: nat, kids: seq<Kid>, p: Placed)
    requires p.PDir? && |p.kids| == |kids| && AllSeated(w, p.kids) && p.dirPos <= |w.dirLog|
    ensures DirInode(st, w, perm, kids, p).dirStartBlock == RefBlock(RefAt(st, w.dirLog, p.dirPos)) % TWO_32
  {
  }

  /** A stored directory lists its children, sorted, with their references, numbers and types,
      if and only if its listing is at most 65532 bytes and no name is over 256. Otherwise it
      is an error or loses the last entries, and is an error if only a name is too long. */
  lemma StoredDirLists(fs: FS, st: Storage, w: Snapshot, perm: nat, kids: seq<Kid>, p: Placed)
    requires Sealed(fs, st, w) && StoredDir(st, w, perm, kids, p) && (kids != [] ==> ListingInRange(st, w, p))
    requires forall i :: 0 <= i < |kids| ==> EntryFits(st, w, p.kids[i]) && 1 <= |kids[i].name| <= TWO_16
    ensures var r, es := ReadDir(fs, DirInode(st, w, perm, kids, p)), SortByName(EntriesOf(st, w, kids, p.kids));
            && (r == Ok(es) <==> ListingFits(st, w, kids, p.kids))
            && (r.Ok? ==> r.value <= es)
            && (|ListingOf(st, w, kids, p.kids)| <= 65532 && !ShortNames(kids) ==> r.Err?)
  {
    hide TableAt, ReadFragmentEntry, Valid, Table, ReadDir, RefAt, BlockStart, Plain, DirRecord, AllSeated,
         EncodeListing, SortByName, Listable, EntriesOf, DirDataSize, RefBlock, RefOffset, Short, ShortNames;
    var listed := EntriesOf(st, w, kids, p.kids);
    var es, dir := SortByName(listed), DirInode(st, w, perm, kids, p);
    SameElements(es, listed);
    ShortByName(st, w, kids, p.kids);
    if kids == [] {
      EmptyListing(es);
      ShortIfEmpty(es);
      EmptyDirectory(fs, dir);
    } else {
      ListingsAreListable(st, w, kids, p.kids);
      RefParts(st, w.dirLog, p.dirPos);
      assert ListingAt(fs, st, w.dirLog, p.dirPos, dir, EncodeListing(es));
      ListingRoundTrip(fs, st, w.dirLog, p.dirPos, dir, es);
    }
  }

  lemma ShortByName(st: Storage, w: Snapshot, kids: seq<Kid>, ps: seq<Placed>)
    requires |kids| == |ps| && AllSeated(w, ps)
    ensures Short(SortByName(EntriesOf(st, w, kids, ps))) <==> ShortNames(kids)
  {
    hide SortByName, RefOf, Number, KindCode, AllSeated;
    var es := EntriesOf(st, w, kids, ps);
    var sorted := SortByName(es);
    SameElements(sorted, es);
    if Short(sorted) {
      forall i | 0 <= i < |kids|
        ensures |kids[i].name| <= MAX_NAME
      {
        assert es[i] in sorted;
      }
    }
    if ShortNames(kids) {
      forall i | 0 <= i < |sorted|
        ensures |sorted[i].name| <= MAX_NAME
      {
        assert sorted[i] in es;
      }
    }
  }

  lemma EmptyDirectory(fs: FS, dir: Inode)
    requires dir.size == DirDataSize(3)
    ensures ReadDir(fs, dir) == Ok([])
  {
  }

  // ----- Exactly when a node survives -----

  lemma ContentsHaveTheSize(fs: FS, in0: Inode)
    ensures var r := FileContents(fs, in0, -1); r.Ok? ==> |r.value| == in0.size
  {
  }

  lemma BasicFileSize(fs: FS, c: Cursor, base: Inode)
    requires fs.sb.blockSize > 0
    ensures var r := ReadFileBody(fs, c, base); r.Ok? ==> r.value.size < TWO_32
  {
    hide ReadBytes, ReadBlockList;
  }

  /** A file is read back exactly when its size fits the 32-bit field: the size is cut to 32
      bits without a check. */
  lemma FileReadsBackIff(fs: FS, frags: bool, st: Storage, w: Snapshot, perm: nat, data: seq<Byte>, p: Placed)
    requires Sealed(fs, st, w) && RefFits(st, w, p) && StoredFile(frags, st, w, perm, data, p) && perm < 0x1000
    requires p.words == [] || p.start < TWO_32
    ensures (var r := ReadInode(fs, RefOf(st, w, p)); r.Ok? && FileContents(fs, r.value, -1) == Ok(data)) <==>
            |data| < TWO_32
  {
    hide ReadInode, FileContents, RefAt, Sealed, FileBlocks, FragHolds, ReadFileBody, BlockStart, Table, FullLen,
         Header, FileBody, EncodeWords, Plain;
    if |data| < TWO_32 {
      StoredFileDecodes(fs, frags, st, w, perm, data, p);
      FileReadsBack(fs, frags, st, w, perm, data, p);
    } else {
      SealedTables(fs, st, w);
      var body := FileBody(p.start, p.fragIdx, p.fragOff, |data|) + EncodeWords(p.words);
      var c := HeaderReadsBack(fs, st, w.inodeLog, w.starts[p.id], BASIC_FILE, perm, Number(p.id), body);
      var in0 := Plain(BASIC_FILE, perm, Number(p.id));
      BasicFileSize(fs, c, in0);
      var r := ReadFileBody(fs, c, in0);
      if r.Ok? {
        ContentsHaveTheSize(fs, r.value);
      }
    }
  }

  lemma SealedTables(fs: FS, st: Storage, w: Snapshot)
    requires Sealed(fs, st, w)
    ensures TableAt(fs, st, fs.sb.inodeTable, w.inodeLog) && |fs.image| < 0x8000_0000_0000_0000
    ensures fs.sb.blockSize == BLOCK_SIZE
  {
  }

  lemma BasicLinkTarget(fs: FS, c: Cursor, base: Inode)
    ensures var r := ReadSymlinkBody(fs, c, base); r.Ok? ==> |r.value.target| <= META_MAX
  {
    hide ReadBytes;
  }

  /** A link is read back exactly when its target is at most 8192 bytes. */
  lemma LinkReadsBackIff(fs: FS, st: Storage, w: Snapshot, perm: nat, target: seq<Byte>, p: Placed)
    requires Sealed(fs, st, w) && RefFits(st, w, p) && StoredLink(w, perm, target, p) && perm < 0x1000
    ensures (var r := ReadInode(fs, RefOf(st, w, p)); r.Ok? && r.value.target == target) <==> |target| <= META_MAX
  {
    hide ReadInode, RefAt, Sealed, ReadSymlinkBody, BlockStart, Table, Header, LinkBody, Plain;
    SealedTables(fs, st, w);
    if |target| <= META_MAX {
      StoredLinkDecodes(fs, st, w, perm, target, p);
    } else {
      var body := LinkBody(|target|) + target;
      var c := HeaderReadsBack(fs, st, w.inodeLog, w.starts[p.id], BASIC_SYMLINK, perm, Number(p.id), body);
      BasicLinkTarget(fs, c, Plain(BASIC_SYMLINK, perm, Number(p.id)));
    }
  }

  // ----- Whole trees -----

  /** A finished image of a run that wrote n, with nothing out of range: what can still go wrong
      below n is a listing that outgrows its 16-bit size or has a name the reader refuses. */
  ghost predicate Sound(fs: FS, frags: bool, st: Storage, w: Snapshot, n: Node, p: Placed) {
    Sealed(fs, st, w) && WellFormed(n) && Stored(frags, st, w, n, p) && RefFits(st, w, p) && InRange(st, w, n, p)
  }

  ghost predicate Ready(fs: FS, frags: bool, st: Storage, w: Snapshot, n: Node, p: Placed) {
    Sound(fs, frags, st, w, n, p) && ListingsBounded(st, w, n, p)
  }

  /** The placement is one of a node of this kind. */
  ghost predicate Shaped(w: Snapshot, n: Node, p: Placed) {
    && (n.File? ==> p.PFile?)
    && (n.Dir? ==> p.PDir? && |p.kids| == |n.kids| && AllSeated(w, p.kids) && p.dirPos <= |w.dirLog|)
  }

  /** The inode a stored node decodes to. */
  ghost function InodeOf(st: Storage, w: Snapshot, n: Node, p: Placed): Inode
    requires Shaped(w, n, p)
  {
    match n
    case File(perm, data) => FileInode(perm, data, p)
    case Link(perm, target) => LinkInode(perm, target, p)
    case Dir(perm, kids) => DirInode(st, w, perm, kids, p)
  }

  lemma NodeDecodes(fs: FS, frags: bool, st: Storage, w: Snapshot, n: Node, p: Placed)
    requires Sound(fs, frags, st, w, n, p)
    ensures Seated(w, p) && Shaped(w, n, p) && fs.sb.blockSize == BLOCK_SIZE
    ensures ReadInode(fs, RefOf(st, w, p)) == Ok(InodeOf(st, w, n, p))
  {
    hide ReadInode, FileInode, LinkInode, DirInode, RefOf, ListingOf, FullLen, Header, FileBlocks, FragHolds, TableAt,
         ReadFragmentEntry, Valid, BlockStart;
    match n
    case File(perm, data) =>
      assert FileFits(fs, frags, st, w, perm, data, p);
      StoredFileDecodes(fs, frags, st, w, perm, data, p);
    case Link(perm, target) =>
      StoredLinkDecodes(fs, st, w, perm, target, p);
    case Dir(perm, kids) =>
      StoredDirDecodes(fs, st, w, perm, kids, p);
  }

  /** The Unix mode of a node: its file type and its permissions. */
  ghost predicate IsModeOf(mode: nat, n: Node) {
    && (n.Dir? ==> mode == 0x4000 + n.perm)
    && (n.File? ==> mode == 0x8000 + n.perm)
    && (n.Link? ==> mode == 0xA000 + n.perm)
  }

  /** The type a directory entry gives a node. */
  ghost predicate IsTypeOf(etype: nat, n: Node) {
    (n.Dir? ==> etype == 1) && (n.File? ==> etype == 2) && (n.Link? ==> etype == 3)
  }

  /** Reading the inode gives the node: type, permissions, and contents, target or children,
      the latter sorted, each with its type and with the number its own inode carries. */
  ghost predicate Represents(fs: FS, in0: Inode, n: Node)
    requires fs.sb.blockSize > 0
  {
    IsModeOf(in0.mode, n) &&
    match n
    case File(_, data) => in0.IsRegular() && FileContents(fs, in0, -1) == Ok(data)
    case Link(_, target) => in0.IsSymlink() && in0.target == target
    case Dir(_, kids) => in0.IsDir() && ReadDir(fs, in0).Ok? && Lists(fs, ReadDir(fs, in0).value, kids)
  }

  /** The same, except that a directory may fail to list or list only some of its children. */
  ghost predicate StandsFor(fs: FS, in0: Inode, n: Node)
    requires fs.sb.blockSize > 0
  {
    IsModeOf(in0.mode, n) &&
    match n
    case File(_, data) => in0.IsRegular() && FileContents(fs, in0, -1) == Ok(data)
    case Link(_, target) => in0.IsSymlink() && in0.target == target
    case Dir(_, kids) => in0.IsDir() && (ReadDir(fs, in0).Ok? ==> ListsSome(fs, ReadDir(fs, in0).value, kids))
  }

  ghost predicate ListsSome(fs: FS, es: seq<DirEntry>, kids: seq<Kid>)
    requires fs.sb.blockSize > 0
  {
    && |es| <= |kids| && SortedByName(es)
    && forall e :: e in es ==> IsListed(fs, e, kids)
  }

  ghost predicate IsListed(fs: FS, e: DirEntry, kids: seq<Kid>)
    requires fs.sb.blockSize > 0
  {
    exists i :: 0 <= i < |kids| && Describes(fs, e, kids[i])
  }

  ghost predicate Lists(fs: FS, es: seq<DirEntry>, kids: seq<Kid>)
    requires fs.sb.blockSize > 0
  {
    && |es| == |kids| && SortedByName(es)
    && forall i :: 0 <= i < |kids| ==> Listed(fs, es, kids[i])
  }

  ghost predicate Listed(fs: FS, es: seq<DirEntry>, kid: Kid)
    requires fs.sb.blockSize > 0
  {
    exists e :: e in es && Describes(fs, e, kid)
  }

  ghost predicate Describes(fs: FS, e: DirEntry, kid: Kid)
    requires fs.sb.blockSize > 0
  {
    && e.name == kid.name && IsTypeOf(e.etype, kid.node)
    && var r := ReadInode(fs, e.ref);
       r.Ok? && r.value.number == e.num && r.value.itype == e.etype
  }

  lemma KidSound(fs: FS, frags: bool, st: Storage, w: Snapshot, n: Node, p: Placed, i: nat)
    requires Sound(fs, frags, st, w, n, p) && n.Dir? && i < |n.kids|
    ensures p.PDir? && |p.kids| == |n.kids| && Sound(fs, frags, st, w, n.kids[i].node, p.kids[i])
    ensures ValidName(n.kids[i].name) && 1 <= |n.kids[i].name| <= TWO_16 && EntryFits(st, w, p.kids[i])
  {
    hide Sealed, StoredDir, ListingInRange, BlockStart;
    StoredDirKids(st, w, n.perm, n.kids, p);
  }

  lemma InodeFields(st: Storage, w: Snapshot, n: Node, p: Placed)
    requires Shaped(w, n, p)
    ensures var in0 := InodeOf(st, w, n, p);
            && in0.itype == KindCode(n) && in0.number == Number(p.id)
            && IsTypeOf(in0.itype, n) && IsModeOf(in0.mode, n)
            && (n.Link? ==> in0.target == n.target)
  {
  }

  /** The listing of a stored directory, as the reader sees it: all of it if it fits, otherwise
      an error or some of its first entries. */
  lemma DirectoryReads(fs: FS, frags: bool, st: Storage, w: Snapshot, n: Node, p: Placed)
    requires Sound(fs, frags, st, w, n, p) && n.Dir?
    ensures Shaped(w, n, p)
    ensures var r, es := ReadDir(fs, InodeOf(st, w, n, p)), SortByName(EntriesOf(st, w, n.kids, p.kids));
            && (r == Ok(es) <==> ListingFits(st, w, n.kids, p.kids))
            && (r.Ok? ==> r.value <= es)
  {
    hide Sealed, ReadDir, DirInode, SortByName, EntriesOf, ListingFits, ListingOf, RefAt, DirRecord, ListingInRange,
         BlockStart, Stored;
    SoundDir(fs, frags, st, w, n, p);
    forall i | 0 <= i < |n.kids|
      ensures EntryFits(st, w, p.kids[i]) && 1 <= |n.kids[i].name| <= TWO_16
    {
      KidSound(fs, frags, st, w, n, p, i);
    }
    StoredDirLists(fs, st, w, n.perm, n.kids, p);
  }

  lemma SoundDir(fs: FS, frags: bool, st: Storage, w: Snapshot, n: Node, p: Placed)
    requires Sound(fs, frags, st, w, n, p) && n.Dir?
    ensures Sealed(fs, st, w) && StoredDir(st, w, n.perm, n.kids, p) && (n.kids != [] ==> ListingInRange(st, w, p))
    ensures Shaped(w, n, p) && DistinctNames(n.kids)
  {
    hide Sealed, ListingInRange, BlockStart, RefAt, ListingOf, DirRecord;
  }

  /** What is read of any stored node is right, if not always complete. */
  lemma NodeShows(fs: FS, frags: bool, st: Storage, w: Snapshot, n: Node, p: Placed)
    requires Sound(fs, frags, st, w, n, p)
    ensures Shaped(w, n, p) && fs.sb.blockSize > 0 && StandsFor(fs, InodeOf(st, w, n, p), n)
  {
    hide ReadInode, ReadDir, FileContents, InodeOf, Sound, ListsSome, TypeBits, Shaped, ListingFits, SortByName;
    NodeDecodes(fs, frags, st, w, n, p);
    InodeFields(st, w, n, p);
    match n
    case File(perm, data) =>
      SoundFile(fs, frags, st, w, n, p);
      FileReadsBack(fs, frags, st, w, perm, data, p);
    case Link(perm, target) =>
    case Dir(perm, kids) =>
      DirectoryReads(fs, frags, st, w, n, p);
      var r := ReadDir(fs, InodeOf(st, w, n, p));
      if r.Ok? {
        DirectoryListsSome(fs, frags, st, w, n, p, r.value);
      }
  }

  lemma NodeReads(fs: FS, frags: bool, st: Storage, w: Snapshot, n: Node, p: Placed)
    requires Ready(fs, frags, st, w, n, p)
    ensures Shaped(w, n, p) && fs.sb.blockSize > 0 && Represents(fs, InodeOf(st, w, n, p), n)
  {
    hide ReadInode, ReadDir, FileContents, InodeOf, Sound, Lists, TypeBits, Shaped, ListingFits, ListingsBounded,
         ListsSome, SortByName;
    NodeShows(fs, frags, st, w, n, p);
    if n.Dir? {
      DirectoryReads(fs, frags, st, w, n, p);
      LocalBound(st, w, n, p);
      DirectoryLists(fs, frags, st, w, n, p);
    }
  }

  lemma LocalBound(st: Storage, w: Snapshot, n: Node, p: Placed)
    requires ListingsBounded(st, w, n, p) && n.Dir?
    ensures p.PDir? && |p.kids| == |n.kids| && AllSeated(w, p.kids) && ListingFits(st, w, n.kids, p.kids)
  {
  }

  lemma SoundFile(fs: FS, frags: bool, st: Storage, w: Snapshot, n: Node, p: Placed)
    requires Sound(fs, frags, st, w, n, p) && n.File?
    ensures FileReady(fs, frags, st, w, n.perm, n.data, p) && Shaped(w, n, p)
    ensures InodeOf(st, w, n, p) == FileInode(n.perm, n.data, p)
  {
    hide Sealed, StoredFile, BlockStart;
    StoredFileShape(frags, st, w, n.perm, n.data, p);
  }

  lemma StoredFileShape(frags: bool, st: Storage, w: Snapshot, perm: nat, data: seq<Byte>, p: Placed)
    requires StoredFile(frags, st, w, perm, data, p)
    ensures p.PFile?
  {
  }

  lemma KidDescribed(fs: FS, frags: bool, st: Storage, w: Snapshot, n: Node, p: Placed, i: nat)
    requires Sound(fs, frags, st, w, n, p) && n.Dir? && i < |n.kids| && fs.sb.blockSize > 0 && Shaped(w, n, p)
    ensures Describes(fs, EntriesOf(st, w, n.kids, p.kids)[i], n.kids[i])
  {
    hide ReadInode, Sound, InodeOf, RefOf, Number, KindCode;
    KidSound(fs, frags, st, w, n, p, i);
    NodeDecodes(fs, frags, st, w, n.kids[i].node, p.kids[i]);
    InodeFields(st, w, n.kids[i].node, p.kids[i]);
  }

  lemma DirectoryLists(fs: FS, frags: bool, st: Storage, w: Snapshot, n: Node, p: Placed)
    requires Sound(fs, frags, st, w, n, p) && n.Dir? && fs.sb.blockSize > 0 && Shaped(w, n, p)
    ensures Lists(fs, SortByName(EntriesOf(st, w, n.kids, p.kids)), n.kids)
  {
    hide Sound, SortByName, SortedByName, Describes, EntriesOf;
    var es := EntriesOf(st, w, n.kids, p.kids);
    var sorted := SortByName(es);
    SortSorts(es);
    SameElements(sorted, es);
    forall i | 0 <= i < |n.kids|
      ensures Listed(fs, sorted, n.kids[i])
    {
      KidDescribed(fs, frags, st, w, n, p, i);
      assert es[i] in sorted;
    }
  }

  lemma DirectoryListsSome(fs: FS, frags: bool, st: Storage, w: Snapshot, n: Node, p: Placed, some: seq<DirEntry>)
    requires Sound(fs, frags, st, w, n, p) && n.Dir? && fs.sb.blockSize > 0 && Shaped(w, n, p)
    requires some <= SortByName(EntriesOf(st, w, n.kids, p.kids))
    ensures ListsSome(fs, some, n.kids)
  {
    hide Sound, SortByName, InOrder, Describes, EntriesOf;
    var es := EntriesOf(st, w, n.kids, p.kids);
    var sorted := SortByName(es);
    SortSorts(es);
    SameElements(sorted, es);
    forall e | e in some
      ensures IsListed(fs, e, n.kids)
    {
      assert e in sorted && e in es;
      var i :| 0 <= i < |es| && es[i] == e;
      KidDescribed(fs, frags, st, w, n, p, i);
    }
  }

  // ----- Looking names up -----

  /** Resolution over the image itself. */
  function LookupOf(fs: FS): Lookup
    requires fs.sb.blockSize > 0
  {
    Lookup((ref: nat) => ReadInode(fs, ref), (dir: Inode) => ReadDir(fs, dir), fs.sb.rootInode)
  }

  lemma FindDistinct(es: seq<DirEntry>, sorted: seq<DirEntry>, i: nat)
    requires i < |es| && (forall x :: x in sorted <==> x in es)
    requires forall j, k :: 0 <= j < k < |es| ==> es[j].name != es[k].name
    ensures FindEntry(sorted, es[i].name) == Some(es[i])
  {
    hide FindEntry;
    var r := FindEntry(sorted, es[i].name);
    assert es[i] in sorted;
    if r.Some? {
      assert r.value in es;
      var j :| 0 <= j < |es| && es[j] == r.value;
      assert j == i;
    }
  }

  /** Looking a name up in a directory whose listing fits finds the inode of the child with that
      name, and nothing when no child has it. */
  lemma ChildFound(fs: FS, frags: bool, st: Storage, w: Snapshot, n: Node, p: Placed, name: Name)
    requires Sound(fs, frags, st, w, n, p) && n.Dir? && fs.sb.blockSize > 0 && Shaped(w, n, p)
    requires ListingFits(st, w, n.kids, p.kids)
    ensures var found, child := KidNamed(n.kids, name), Child(LookupOf(fs), InodeOf(st, w, n, p), name);
            if found.None? then child == Err(NotFound) else child == ReadInode(fs, RefOf(st, w, p.kids[found.value]))
  {
    hide ReadInode, ReadDir, SortByName, InodeOf, RefOf, KindCode, Number, FindEntry, Sound, ListingFits, ValidName;
    var es := EntriesOf(st, w, n.kids, p.kids);
    DirectoryReads(fs, frags, st, w, n, p);
    SameElements(SortByName(es), es);
    InodeFields(st, w, n, p);
    DirKind(n);
    SoundDir(fs, frags, st, w, n, p);
    var found := KidNamed(n.kids, name);
    if found.Some? {
      FindDistinct(es, SortByName(es), found.value);
    }
  }

  /** Whatever of the listing can be read, a name that is found there leads to the inode of the
      child with that name. */
  lemma ChildIsRight(fs: FS, frags: bool, st: Storage, w: Snapshot, n: Node, p: Placed, name: Name)
    requires Sound(fs, frags, st, w, n, p) && n.Dir? && fs.sb.blockSize > 0 && Shaped(w, n, p)
    requires Child(LookupOf(fs), InodeOf(st, w, n, p), name).Ok?
    ensures var found := KidNamed(n.kids, name);
            && found.Some?
            && Child(LookupOf(fs), InodeOf(st, w, n, p), name) == ReadInode(fs, RefOf(st, w, p.kids[found.value]))
  {
    hide ReadInode, ReadDir, SortByName, InodeOf, RefOf, KindCode, Number, FindEntry, Sound, ListingFits, ValidName,
         KidNamed, DistinctNames;
    var es := EntriesOf(st, w, n.kids, p.kids);
    DirectoryReads(fs, frags, st, w, n, p);
    SameElements(SortByName(es), es);
    SoundDir(fs, frags, st, w, n, p);
    var some := ReadDir(fs, InodeOf(st, w, n, p)).value;
    var e := FindEntry(some, name).value;
    assert e in some && e in SortByName(es) && e in es;
    var i :| 0 <= i < |es| && es[i] == e;
    KidNamedIs(n.kids, i);
  }

  lemma KidNamedIs(kids: seq<Kid>, i: nat)
    requires DistinctNames(kids) && i < |kids|
    ensures KidNamed(kids, kids[i].name) == Some(i)
  {
    var r := KidNamed(kids, kids[i].name);
    assert r.Some? && kids[r.value].name == kids[i].name;
  }

  lemma DirKind(n: Node)
    requires n.Dir?
    ensures KindCode(n) == BASIC_DIR
  {
  }
}
