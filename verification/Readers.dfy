/** What the readers of a built image ask the block cache for, and that it never shows. */
module Readers {
  import opened Bytes
  import opened Codecs
  import opened Metadata
  import opened Inodes
  import opened Data
  import opened Paths
  import opened Tree
  import opened Layout
  import opened Records
  import opened Placement
  import opened RoundTrip
  import opened TreePaths
  import Cache

  /** The offset and size word of every data block of a run. */
  function BlockRequests(st: Storage, w: Snapshot): set<Cache.Request> {
    set o | o in w.blocks :: Cache.Request(o, WordOf(st, w.blocks[o]))
  }

  /** Everything a reader of a stored file asks readBlock for is a block of the run: its own
      blocks at the running sums of their sizes, and the fragment block of its tail. */
  lemma ReadersAskForBlocks(fs: FS, frags: bool, st: Storage, w: Snapshot, perm: nat, data: seq<Byte>, p: Placed)
    requires FileReady(fs, frags, st, w, perm, data, p)
    ensures p.PFile?
    ensures forall i :: 0 <= i < |p.words| ==>
              Cache.Request(BlockOffset(FileInode(perm, data, p), i), p.words[i]) in BlockRequests(st, w)
    ensures FullLen(frags, data) < |data| ==>
              && ReadFragmentEntry(fs, p.fragIdx).Ok?
              && var fe := ReadFragmentEntry(fs, p.fragIdx).value;
                 Cache.Request(I64(fe.start), fe.word) in BlockRequests(st, w)
  {
    hide FileReady, BlockRequests, ReadFragmentEntry, I64, BlockOffset, Plain, FullLen;
    FileReadyBlockSize(fs, frags, st, w, perm, data, p);
    forall i | 0 <= i < |p.words|
      ensures Cache.Request(BlockOffset(FileInode(perm, data, p), i), p.words[i]) in BlockRequests(st, w)
    {
      BlockAskedFor(fs, frags, st, w, perm, data, p, i);
    }
    if FullLen(frags, data) < |data| {
      FragmentAskedFor(fs, frags, st, w, perm, data, p);
    }
  }

  lemma BlockAskedFor(fs: FS, frags: bool, st: Storage, w: Snapshot, perm: nat, data: seq<Byte>, p: Placed, i: nat)
    requires FileReady(fs, frags, st, w, perm, data, p) && i < |p.words|
    ensures Cache.Request(BlockOffset(FileInode(perm, data, p), i), p.words[i]) in BlockRequests(st, w)
  {
    hide Sealed, WordOf, BlockOffset, FileInode, DiskBytes, Holds, FullLen, Chunk;
    BlockOffsetIs(fs, frags, st, w, perm, data, p, i);
    assert FileBlock(st, w, p.start, p.words, data[..FullLen(frags, data)], i);
  }

  lemma FragmentAskedFor(fs: FS, frags: bool, st: Storage, w: Snapshot, perm: nat, data: seq<Byte>, p: Placed)
    requires FileReady(fs, frags, st, w, perm, data, p) && FullLen(frags, data) < |data|
    ensures ReadFragmentEntry(fs, p.fragIdx).Ok?
    ensures var fe := ReadFragmentEntry(fs, p.fragIdx).value;
            Cache.Request(I64(fe.start), fe.word) in BlockRequests(st, w)
  {
    hide WordOf, FileBlocks, Holds, FullLen, ReadFragmentEntry, I64, TableAt, Lawful, BlockOk, FragHolds, ReadFragment;
    var full := FullLen(frags, data);
    FragmentReadsBack(fs, st, w, p.fragIdx, p.fragOff, data[full..]);
    var fe := w.fragEntries[p.fragIdx];
    assert FragOk(st, w, fe);
    BlockReadsBack(fs, st, w, fe.start);
    SmallI64(fe.start);
  }

  /** readFile or an opened file asks readBlock for this while it reads in0. */
  ghost predicate AsksFor(fs: FS, in0: Inode, req: Cache.Request) {
    || (exists i :: 0 <= i < |in0.blockSizes| && req == Cache.Request(BlockOffset(in0, i), in0.blockSizes[i]))
    || (in0.fragIdx != INVALID_FRAG && ReadFragmentEntry(fs, in0.fragIdx).Ok? &&
        req == Cache.Request(I64(ReadFragmentEntry(fs, in0.fragIdx).value.start),
                             ReadFragmentEntry(fs, in0.fragIdx).value.word))
  }

  /** Some path leads to a regular file whose reader asks for it. */
  ghost predicate AskedFor(fs: FS, req: Cache.Request)
    requires fs.sb.blockSize > 0
  {
    exists path: seq<Byte>, follow: bool :: AskedAt(fs, path, follow, req)
  }

  ghost predicate AskedAt(fs: FS, path: seq<Byte>, follow: bool, req: Cache.Request)
    requires fs.sb.blockSize > 0
  {
    var r := Resolve(LookupOf(fs), path, follow);
    r.Ok? && r.value.IsRegular() && AsksFor(fs, r.value, req)
  }

  lemma FileAsksForBlocks(fs: FS, frags: bool, st: Storage, w: Snapshot, n: Node, p: Placed, in0: Inode,
                          req: Cache.Request)
    requires Stands(fs, frags, st, w, n, p, in0) && fs.sb.blockSize > 0 && in0.IsRegular() && AsksFor(fs, in0, req)
    ensures req in BlockRequests(st, w)
  {
    hide Sound, ListingsBounded, BlockRequests, ReadFragmentEntry, I64, BlockOffset, FullLen, FileReady, InodeOf,
         Represents, StandsFor;
    StandsShows(fs, frags, st, w, n, p, in0);
    InodeFields(st, w, n, p);
    SoundFile(fs, frags, st, w, n, p);
    ReadersAskForBlocks(fs, frags, st, w, n.perm, n.data, p);
    FragIndexTells(fs, frags, st, w, n.perm, n.data, p);
  }

  lemma FragIndexTells(fs: FS, frags: bool, st: Storage, w: Snapshot, perm: nat, data: seq<Byte>, p: Placed)
    requires FileReady(fs, frags, st, w, perm, data, p)
    ensures p.PFile? && (p.fragIdx != INVALID_FRAG ==> FullLen(frags, data) < |data|)
  {
    hide FileFits, FullLen;
    FileReadyBlockSize(fs, frags, st, w, perm, data, p);
    FragFields(fs, frags, st, w, perm, data, p);
  }

  lemma AskedForBlocks(fs: FS, frags: bool, st: Storage, w: Snapshot, root: Node, p: Placed, req: Cache.Request)
    requires Sound(fs, frags, st, w, root, p) && Rooted(fs, st, w, p) && AskedFor(fs, req)
    ensures req in BlockRequests(st, w)
  {
    hide Sound, Stands, AsksFor, BlockRequests, Resolve, TreeResolve, RefOf, ListingsBounded;
    var path: seq<Byte>, follow: bool :| AskedAt(fs, path, follow, req);
    var q := ResolveAgrees(fs, frags, st, w, root, p, path, follow);
    FileAsksForBlocks(fs, frags, st, w, TreeResolve(root, path, follow).value, q,
                      Resolve(LookupOf(fs), path, follow).value, req);
  }

  /** Over an image of a well-formed tree and a run in range, overlong listings or not, the data
      cache is invisible in every interleaving of readers: whatever any reader of any file that
      any path leads to asks for is a block the writer wrote, and no two of those share an
      offset. */
  lemma BuiltImageCacheInvisible(fs: FS, frags: bool, st: Storage, w: Snapshot, root: Node, p: Placed,
                                 cap: int, schedule: seq<Cache.Action>)
    requires Sound(fs, frags, st, w, root, p) && Rooted(fs, st, w, p)
    requires forall i :: 0 <= i < |schedule| && schedule[i].Probe? ==> AskedFor(fs, schedule[i].req)
    ensures Cache.Transparent(Cache.DataSource(fs, cap), Cache.Run(Cache.DataSource(fs, cap), schedule))
  {
    hide Sound, WordOf, AskedFor, Rooted, Cache.Run;
    forall i | 0 <= i < |schedule| && schedule[i].Probe?
      ensures schedule[i].req in BlockRequests(st, w)
    {
      RootedSize(fs, st, w, p);
      AskedForBlocks(fs, frags, st, w, root, p, schedule[i].req);
    }
    Cache.DataCacheInvisible(fs, cap, BlockRequests(st, w), schedule);
  }

  lemma RootedSize(fs: FS, st: Storage, w: Snapshot, p: Placed)
    requires Rooted(fs, st, w, p)
    ensures fs.sb.blockSize > 0
  {
  }
}
