/** The promises an image writer makes while it runs, and why later writes keep them. */
module Layout {
  import opened Bytes
  import opened Codecs
  import opened Data
  import opened Tree

  const SUPERBLOCK: nat := 96

  /** The size word writeDataBlock returns: uint32(len), bit 24 or-ed in for a raw block. */
  function WordOf(st: Storage, payload: seq<Byte>): (word: nat)
    ensures |payload| <= BLOCK_SIZE ==>
              OnDisk(word) == |Keep(st, payload).bytes| && IsRaw(word) == !Keep(st, payload).compressed &&
              word < TWO_32
  {
    var kept := Keep(st, payload);
    var len := |kept.bytes| % TWO_32;
    if kept.compressed || IsRaw(len) then len else len + UNCOMPRESSED_BIT
  }

  /** The writer at some moment of a run. `inodeLog` and `dirLog` are the bytes written to the
      two tables so far, `starts` where in the inode log each inode begins, in the order of the
      inode numbers, and `blocks` the data blocks written so far by their offset. */
  datatype Snapshot = Snapshot(
    data: seq<Byte>, inodeLog: seq<Byte>, dirLog: seq<Byte>, starts: seq<nat>,
    blocks: map<nat, seq<Byte>>, fragEntries: seq<FragEntry>, fragBuf: seq<Byte>)

  ghost predicate BlockOk(st: Storage, data: seq<Byte>, o: nat, payload: seq<Byte>) {
    SUPERBLOCK <= o && 1 <= |payload| <= BLOCK_SIZE && Holds(data, o, Keep(st, payload).bytes)
  }

  ghost predicate FragOk(st: Storage, w: Snapshot, fe: FragEntry) {
    fe.start in w.blocks && fe.word == WordOf(st, w.blocks[fe.start])
  }

  /** What every step of a run keeps. */
  ghost predicate Valid(st: Storage, w: Snapshot) {
    && Lawful(st.codec)
    && SUPERBLOCK + |w.fragEntries| <= |w.data|
    && (forall o :: o in w.blocks ==> BlockOk(st, w.data, o, w.blocks[o]))
    && (forall i :: 0 <= i < |w.fragEntries| ==> FragOk(st, w, w.fragEntries[i]))
    && |w.fragBuf| <= BLOCK_SIZE
    && Spaced(w.starts, |w.inodeLog|)
  }

  /** Inodes take at least 24 bytes each. */
  ghost predicate Spaced(starts: seq<nat>, end: nat) {
    && (forall i :: 0 <= i < |starts| ==> starts[i] + 24 <= end)
    && forall i, j :: 0 <= i < j < |starts| ==> starts[i] + 24 * (j - i) <= starts[j]
  }

  /** The block that fragment index i names: an emitted one, or the one being filled. */
  ghost function FragBlock(w: Snapshot, i: nat): seq<Byte> {
    if i < |w.fragEntries| && w.fragEntries[i].start in w.blocks then w.blocks[w.fragEntries[i].start]
    else if i == |w.fragEntries| then w.fragBuf
    else []
  }

  /** One moment of a run and a later one: everything only grows. */
  ghost predicate Extends(w: Snapshot, w': Snapshot) {
    && w.data <= w'.data && w.inodeLog <= w'.inodeLog && w.dirLog <= w'.dirLog && w.starts <= w'.starts
    && w.fragEntries <= w'.fragEntries
    && (forall o :: o in w.blocks ==> o in w'.blocks && w'.blocks[o] == w.blocks[o])
    && w.fragBuf <= FragBlock(w', |w.fragEntries|)
  }

  lemma ExtendsFragments(w: Snapshot, w': Snapshot, i: nat)
    requires Extends(w, w')
    ensures FragBlock(w, i) <= FragBlock(w', i)
  {
  }

  lemma ExtendsTransitive(a: Snapshot, b: Snapshot, c: Snapshot)
    requires Extends(a, b) && Extends(b, c)
    ensures Extends(a, c)
  {
    ExtendsFragments(b, c, |a.fragEntries|);
  }

  // ----- The steps -----

  /** writeDataBlock. */
  function PutBlock(st: Storage, w: Snapshot, block: seq<Byte>): Snapshot {
    w.(data := w.data + Keep(st, block).bytes, blocks := w.blocks[|w.data| := block])
  }

  lemma PutBlockOk(st: Storage, w: Snapshot, block: seq<Byte>)
    requires Valid(st, w) && 1 <= |block| <= BLOCK_SIZE
    ensures var w' := PutBlock(st, w, block);
            && Valid(st, w') && Extends(w, w') && |w.data| !in w.blocks
            && |w'.data| == |w.data| + OnDisk(WordOf(st, block)) && |w'.data| > |w.data|
  {
    hide Lawful, OnDisk, IsRaw, Spaced;
    var w' := PutBlock(st, w, block);
    forall o | o in w'.blocks
      ensures BlockOk(st, w'.data, o, w'.blocks[o])
    {
      if o != |w.data| {
        HoldsGrows(w.data, w'.data, o, Keep(st, w.blocks[o]).bytes);
      }
    }
    KeepNonEmpty(st, block);
    forall o | o in w.blocks
      ensures o < |w.data|
    {
      assert BlockOk(st, w.data, o, w.blocks[o]);
      KeepNonEmpty(st, w.blocks[o]);
    }
  }

  /** flushFragment. */
  function Flush(st: Storage, w: Snapshot): Snapshot {
    if w.fragBuf == [] then w
    else
      PutBlock(st, w, w.fragBuf).(
        fragEntries := w.fragEntries + [FragEntry(|w.data|, WordOf(st, w.fragBuf))], fragBuf := [])
  }

  lemma FlushOk(st: Storage, w: Snapshot)
    requires Valid(st, w)
    ensures Valid(st, Flush(st, w)) && Extends(w, Flush(st, w)) && Flush(st, w).fragBuf == []
  {
    hide BlockOk, Lawful, WordOf, Spaced;
    if w.fragBuf != [] {
      PutBlockOk(st, w, w.fragBuf);
    }
  }

  /** addToFragment. */
  function AddTail(st: Storage, w: Snapshot, tail: seq<Byte>): Snapshot {
    var w1 := if |w.fragBuf| + |tail| > BLOCK_SIZE then Flush(st, w) else w;
    w1.(fragBuf := w1.fragBuf + tail)
  }

  /** The fragment promise: index and offset name the tail, now or once the block is emitted. */
  ghost predicate FragHolds(w: Snapshot, idx: nat, off: nat, tail: seq<Byte>) {
    idx <= |w.fragEntries| && Holds(FragBlock(w, idx), off, tail)
  }

  lemma AddTailOk(st: Storage, w: Snapshot, tail: seq<Byte>)
    requires Valid(st, w) && |tail| <= BLOCK_SIZE
    ensures var w' := AddTail(st, w, tail);
            && Valid(st, w') && Extends(w, w') && |w'.fragBuf| >= |tail|
            && FragHolds(w', |w'.fragEntries|, |w'.fragBuf| - |tail|, tail)
  {
    hide BlockOk, Lawful, WordOf, Spaced, Flush;
    FlushOk(st, w);
    var w1 := if |w.fragBuf| + |tail| > BLOCK_SIZE then Flush(st, w) else w;
    var w' := AddTail(st, w, tail);
    assert Extends(w1, w');
    ExtendsTransitive(w, w1, w');
  }

  /** A tail that still fits in 128 KiB joins the pending block; any other starts a new one after
      the pending block was written out as a data block, with an entry that names it. */
  lemma TailsArePacked(st: Storage, w: Snapshot, tail: seq<Byte>)
    ensures |w.fragBuf| + |tail| <= 131072 ==> AddTail(st, w, tail) == w.(fragBuf := w.fragBuf + tail)
    ensures |w.fragBuf| + |tail| > 131072 && w.fragBuf != [] ==>
              var w' := AddTail(st, w, tail);
              && w'.fragBuf == tail && w'.data == w.data + Keep(st, w.fragBuf).bytes
              && w'.fragEntries == w.fragEntries + [FragEntry(|w.data|, WordOf(st, w.fragBuf))]
              && |w.data| in w'.blocks && w'.blocks[|w.data|] == w.fragBuf
  {
  }

  /** Fragment promises are kept: whatever the writer does next, the tail stays where the index
      and the offset say. */
  lemma FragPromiseKept(w: Snapshot, w': Snapshot, idx: nat, off: nat, tail: seq<Byte>)
    requires FragHolds(w, idx, off, tail) && Extends(w, w')
    ensures FragHolds(w', idx, off, tail)
  {
    hide FragBlock;
    ExtendsFragments(w, w', idx);
    HoldsGrows(FragBlock(w, idx), FragBlock(w', idx), off, tail);
  }

  /** ... and once nothing is pending any more, the index is that of an emitted block. */
  lemma FragPromiseEmitted(w: Snapshot, idx: nat, off: nat, tail: seq<Byte>)
    requires FragHolds(w, idx, off, tail) && w.fragBuf == [] && tail != []
    ensures idx < |w.fragEntries|
  {
  }

  /** An inode record appended to the inode table. */
  function AddInode(w: Snapshot, record: seq<Byte>): Snapshot {
    w.(inodeLog := w.inodeLog + record, starts := w.starts + [|w.inodeLog|])
  }

  lemma AddInodeOk(st: Storage, w: Snapshot, record: seq<Byte>)
    requires Valid(st, w) && |record| >= 24
    ensures var w' := AddInode(w, record);
            && Valid(st, w') && Extends(w, w')
            && Holds(w'.inodeLog, w'.starts[|w.starts|], record)
  {
    hide BlockOk, Lawful, WordOf, Spaced;
    var w' := AddInode(w, record);
    SpacedAppend(w.starts, |w.inodeLog|, |w'.inodeLog|);
    assert forall i :: 0 <= i < |w.fragEntries| ==> FragOk(st, w', w.fragEntries[i]) == FragOk(st, w, w.fragEntries[i]);
  }

  lemma SpacedAppend(starts: seq<nat>, end: nat, end': nat)
    requires Spaced(starts, end) && end + 24 <= end'
    ensures Spaced(starts + [end], end')
  {
    var last := |starts| - 1;
    forall i | 0 <= i < |starts|
      ensures starts[i] + 24 * (|starts| - i) <= end
    {
      assert starts[last] + 24 <= end;
      assert i < last ==> starts[i] + 24 * (last - i) <= starts[last];
    }
  }

  /** A listing appended to the directory table. */
  function AddListing(w: Snapshot, listing: seq<Byte>): Snapshot {
    w.(dirLog := w.dirLog + listing)
  }

  lemma AddListingOk(st: Storage, w: Snapshot, listing: seq<Byte>)
    requires Valid(st, w)
    ensures var w' := AddListing(w, listing);
            && Valid(st, w') && Extends(w, w') && Holds(w'.dirLog, |w.dirLog|, listing)
  {
    hide BlockOk, Lawful, WordOf, Spaced;
    var w' := AddListing(w, listing);
    assert forall i :: 0 <= i < |w.fragEntries| ==> FragOk(st, w', w.fragEntries[i]) == FragOk(st, w, w.fragEntries[i]);
  }

  // ----- The blocks of one file -----

  /** The bytes a list of size words stands for on disk. */
  function DiskBytes(words: seq<nat>): nat {
    if words == [] then 0 else DiskBytes(words[..|words| - 1]) + OnDisk(words[|words| - 1])
  }

  /** Block i of a file's data. */
  function Chunk(data: seq<Byte>, i: nat): (c: seq<Byte>)
    requires i * BLOCK_SIZE <= |data|
    ensures |c| <= BLOCK_SIZE
  {
    data[i * BLOCK_SIZE..Min((i + 1) * BLOCK_SIZE, |data|)]
  }

  ghost predicate FileBlock(st: Storage, w: Snapshot, start: nat, words: seq<nat>, data: seq<Byte>, i: nat)
    requires i < |words| && i * BLOCK_SIZE < |data|
  {
    var o := start + DiskBytes(words[..i]);
    o in w.blocks && w.blocks[o] == Chunk(data, i) && words[i] == WordOf(st, Chunk(data, i))
  }

  /** The words are those of the blocks of `data`, one after the other from `start` on. */
  ghost predicate FileBlocks(st: Storage, w: Snapshot, start: nat, words: seq<nat>, data: seq<Byte>) {
    && |words| * BLOCK_SIZE < |data| + BLOCK_SIZE && |data| <= |words| * BLOCK_SIZE
    && forall i :: 0 <= i < |words| ==> i * BLOCK_SIZE < |data| && FileBlock(st, w, start, words, data, i)
  }

  lemma FileBlocksKept(st: Storage, w: Snapshot, w': Snapshot, start: nat, words: seq<nat>, data: seq<Byte>)
    requires FileBlocks(st, w, start, words, data) && Extends(w, w')
    ensures FileBlocks(st, w', start, words, data)
  {
    hide FragBlock, WordOf, Chunk, DiskBytes;
    forall i | 0 <= i < |words|
      ensures FileBlock(st, w', start, words, data, i)
    {
      assert FileBlock(st, w, start, words, data, i);
    }
  }

  /** Writing the next block of a file right after the ones before it. */
  lemma FileBlocksGrow(st: Storage, w: Snapshot, start: nat, words: seq<nat>, data: seq<Byte>, next: seq<Byte>)
    requires Valid(st, w) && FileBlocks(st, w, start, words, data)
    requires |data| == |words| * BLOCK_SIZE && 1 <= |next| <= BLOCK_SIZE
    requires |w.data| == start + DiskBytes(words)
    ensures var w' := PutBlock(st, w, next);
            && FileBlocks(st, w', start, words + [WordOf(st, next)], data + next)
            && |w'.data| == start + DiskBytes(words + [WordOf(st, next)])
  {
    hide WordOf, FragBlock, Valid, OnDisk, FileBlock, Chunk, Keep;
    var words', data' := words + [WordOf(st, next)], data + next;
    PutBlockOk(st, w, next);
    assert words'[..|words|] == words;
    forall i | 0 <= i < |words'|
      ensures i * BLOCK_SIZE < |data'| && FileBlock(st, PutBlock(st, w, next), start, words', data', i)
    {
      if i < |words| {
        EarlierBlockKept(st, w, start, words, data, next, i);
      } else {
        NextBlock(st, w, start, words, data, next);
      }
    }
  }

  lemma EarlierBlockKept(st: Storage, w: Snapshot, start: nat, words: seq<nat>, data: seq<Byte>, next: seq<Byte>,
                         i: nat)
    requires Valid(st, w) && 1 <= |next| <= BLOCK_SIZE
    requires i < |words| && (i + 1) * BLOCK_SIZE <= |data| && FileBlock(st, w, start, words, data, i)
    ensures FileBlock(st, PutBlock(st, w, next), start, words + [WordOf(st, next)], data + next, i)
  {
    hide WordOf, FragBlock, Valid, OnDisk, Keep, DiskBytes, Chunk;
    PutBlockOk(st, w, next);
    assert (words + [WordOf(st, next)])[..i] == words[..i];
    ChunkKept(data, next, i);
  }

  lemma NextBlock(st: Storage, w: Snapshot, start: nat, words: seq<nat>, data: seq<Byte>, next: seq<Byte>)
    requires |data| == |words| * BLOCK_SIZE && 1 <= |next| <= BLOCK_SIZE
    requires |w.data| == start + DiskBytes(words)
    ensures FileBlock(st, PutBlock(st, w, next), start, words + [WordOf(st, next)], data + next, |words|)
  {
    hide WordOf, OnDisk, Keep, DiskBytes, Chunk;
    assert (words + [WordOf(st, next)])[..|words|] == words;
    ChunkAppended(data, next, |words|);
  }

  lemma ChunkKept(data: seq<Byte>, next: seq<Byte>, i: nat)
    requires (i + 1) * BLOCK_SIZE <= |data|
    ensures Chunk(data + next, i) == Chunk(data, i)
  {
  }

  lemma ChunkAppended(data: seq<Byte>, next: seq<Byte>, i: nat)
    requires |data| == i * BLOCK_SIZE && |next| <= BLOCK_SIZE
    ensures Chunk(data + next, i) == next
  {
  }
}
