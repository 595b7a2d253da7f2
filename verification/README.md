# A verified model of the SquashFS 4.0 writer and reader

This project models, in Dafny, the SquashFS 4.0 image writer (`write.go`) and the
reader that must undo it: metadata blocks and cursors, inodes, directory listings,
data blocks and fragments, random access, the shared block cache, path resolution
and extended-attribute lists. `dafny verify dfyconfig.toml` checks all of it.

The main results:

- **End to end.** `Build.BuildImage` builds an image of any tree, raw or compressed
  with any lawful codec, with or without fragments. If the tree is well-formed and the
  run stayed within the widths of the fields it truncates to, then the image is
  *faithful* if and only if the tree's directory listings fit, which is a predicate on
  the tree alone. Faithful means: every byte path, final link followed or not, resolves
  in the image to an inode that represents the node the path names in the tree (its
  permissions, and its exact bytes, link target, or children, sorted, with their types
  and the numbers their own inodes carry), or fails with the error it fails with in the
  tree: a missing name, a file used as a directory, too many links. `Positions.Small` is
  a predicate on the tree that keeps every run within the widths.
- **Never misdirected.** When some listings do not fit, names can be lost, but under the
  same conditions on tree and run (`RoundTrip.Sound`) any path that still resolves in the
  image resolves in the tree, to a node the inode stands for: same type, permissions,
  bytes or target, and, if the directory can be listed, only children it has
  (`TreePaths.NeverMisdirects`).
- **The driver's calls.** `Api` carries this to `ReadFile`, `ReadFileLimit`, `ReadLink`,
  `ListDir` and `Stat`: on every path they give what the tree gives, or its error; a
  ceiling refuses exactly the larger files. Listings are in the byte order of names.
- **Images of other origin.** `Format` and `Blocks` say, in literal bytes and numbers, what
  records and blocks the writer never makes decode to: all fourteen inode types, sparse
  blocks, fragments, listing headers and entries, and which of them are refused.
- **Promises.** The writer hands out metadata references, fragment indices and block
  offsets before the things they name are on disk. `Placement.StoredKept` shows that
  no later step breaks any of them, and `RoundTrip` that the finished image honours
  them all.
- **Exact limits.** The writer truncates to fixed-width fields without checking. The
  model does the same, and the conditions are theorems: a directory is listed back if
  and only if its listing is at most 65532 bytes and no name in it is over 256, and
  that length is computed from the tree, whatever the blocks compress to; otherwise it
  gives an error or some of the first entries, and an error if only a name is too
  long; a directory's or a file's inode keeps the place it was given if and only if
  that is below 2^32; a file is read back if and only if it is shorter than 2^32
  bytes, provided its data blocks, if it has any, start below 2^32; a link is read
  back if and only if its target is at most 8192 bytes. How much data other files take
  does not matter. The 16-bit inode delta loses nothing if and only if the two numbers
  are within an int16 step, and in every image they are within 341. A directory of 250
  empty files with 255-byte names is a well-formed tree that no image holds.
- **Random access.** `ReadAt` returns, byte for byte, what the whole-file read would,
  and the two accept the same files.
- **Cache.** In every interleaving of probes, decodes and puts the cache is invisible
  if and only if requests that meet in it decode alike. That always holds for
  metadata, and for images the writer made of well-formed trees in runs within the
  widths, whether or not the listings fit: whatever any reader of any file that any path
  leads to asks for is a block the writer wrote. It fails for some images of other
  origin: the model exhibits one whose root lists two files that share a start, and a
  schedule of their two readers in which one gets the other's block.
- **Paths.** Resolution succeeds if and only if a finite big-step derivation with
  links nested at most 40 deep exists; cycles of links always fail.

## How it is organised

| module | file | subject |
|---|---|---|
| `Bytes`, `Codecs` | Bytes.dfy, Codec.dfy | little-endian integers, results, the abstract codec |
| `Format`, `Blocks` | Format.dfy, Blocks.dfy | records and blocks of any origin, in the bytes and numbers of the format |
| `Metadata`, `MetaWriters` | Metadata.dfy, MetaWriter.dfy | metadata blocks, the cursor, the block-emitting writer |
| `Inodes`, `Records` | Inodes.dfy, Records.dfy | inode decoding, the records the writer emits |
| `Directory`, `DirectoryRoundTrip` | Directory.dfy, DirectoryRoundTrip.dfy | listings, both ways |
| `Data`, `OpenFiles` | Data.dfy, OpenFile.dfy | whole-file read, random access |
| `Cache`, `CacheLimits` | Cache.dfy, CacheLimits.dfy | the block cache and concurrent readers, and where the cache shows |
| `Paths` | Paths.dfy | path resolution |
| `Xattrs` | Xattr.dfy | extended-attribute lists |
| `Tree`, `Positions` | Tree.dfy, Positions.dfy | the input tree, and the sizes and positions it fixes |
| `Layout`, `Placement` | Layout.dfy, Placement.dfy | the promises of a run, and where it put each node |
| `ImageWriters`, `FragmentTables`, `Build` | ImageWriter.dfy, FragmentTable.dfy, Build.dfy | the image writer |
| `RoundTrip`, `TreePaths` | RoundTrip.dfy, TreePaths.dfy | from the finished image back to the tree: nodes, then paths |
| `Readers` | Readers.dfy | what the readers of a finished image ask the cache for |
| `Api` | Api.dfy | ReadFile, ReadLink, ListDir and Stat against the tree |

Readers are specified by functions on a value `FS` (the bytes of the image, the
declared size, the superblock fields, the decompressor). The loops of the source are
methods proved equal to those functions. The writer is a pair of classes updated in
place. The byte string of a Go `string` is a `seq<Byte>`. Go's conversions are
written out: `LE16`/`LE32`/`LE64` keep the low bits, `I64`, `S16` and `S32` wrap.

The codec is a parameter. A lawful one undoes its own encoding within the output
limit and never encodes something as nothing; `RunCodecLawful` exhibits one. The packed superblock is a parameter too (`header`): the theorems hold
whatever its 96 bytes are.

Where prose and code of the repository disagree the code is followed: README.md:121-124
says that files are stored without fragment packing and that attributes are not
surfaced, fs.go:16-19 that there are no caches.

## Model

| member | source | states |
|---|---|---|
| Build.BuildImage | write.go:213-274 | the run's placement is stored and stands where the tree puts it; the two tables stand where the superblock says, the id table ends the image, the compressor options follow the superblock; for a well-formed tree and a run in range the image is sound whatever the superblock bytes and the declared size are, misdirects no path, and agrees with the tree on every path if and only if the tree's listings fit; a small tree keeps the run in range |
| Build.SealedIsFaithful | write.go:213-274 | of any finished image of a run in range: faithful on every path if and only if the listings, whose lengths are facts of the tree, fit |
| Build.SmallFits | write.go:213-274 | facts of the tree alone bound every offset, table, start and fragment index of every run |
| Build.PatchKeeps | write.go:268-273 | overwriting the 96 superblock bytes changes no byte at or past offset 96, where every reference points |
| Build.Seals | write.go:236-273 | after the final flush the laid-out image has both tables, every data block and a readable fragment table where the superblock says, as long as the fragments can be counted in 32 bits |
| Readers.ReadersAskForBlocks | data.go:184-205 | every offset and size word a reader of a stored file uses is that of a block the writer wrote |
| Readers.BuiltImageCacheInvisible | cache.go:89-117 | over an image of a well-formed tree and a run in range, overlong listings included, the data cache is invisible in every interleaving of the requests made by readers of whatever files paths lead to |
| Build.OneFileIsCovered | write.go:53-63 | a directory holding one file with any valid name and up to 256 MiB is well-formed and small, its listing fits, and the file's path names it |
| Build.LongNamesDoNotFit | write.go:501 | a directory with 250 or more names of at least 255 bytes has a listing that does not fit, wherever the inodes of its children start |
| Build.LongNamesAreLost | write.go:501 | such a directory, of 250 empty files with distinct names a host can have (no slash, no zero byte), is a well-formed and small tree, so every image built of it is unfaithful |
| Api.FilesAgree | fs.go:96-112 | ReadFileLimit on any path gives the tree's bytes, TooLarge exactly above the ceiling, or the tree's error; in an image with overlong listings, wherever the path resolves |
| Api.DefaultCeiling | fs.go:96-98 | ReadFile has a ceiling of 1073741824 bytes |
| Api.LinksAgree | fs.go:177-186 | ReadLink gives the target, or the tree's error |
| Api.ListingsAgree | fs.go:116-133 | ListDir gives all children in the order of their names, each with its type and number, or the tree's error |
| Api.StatsAgree | fs.go:136-142 | Stat gives the file type and permissions, and the size of a file |
| Bytes.LittleEndian | inode.go:116-125 | the integers of the format, byte by byte |
| Bytes.TwosComplement | dir.go:52-64 | conversion to a signed type gives the congruent value in range |
| Codecs.RunCodecLawful | compress.go:30-39 | a concrete compressing codec meets the codec contract |
| Codecs.KeepUnpack | write.go:198-210 | raw-unless-shorter is undone by the reader's unpacking |
| Codecs.Keep | write.go:198-210 | a block is stored compressed exactly when compression is on, succeeds and makes it shorter |
| Metadata.MetaBlockReads | metadata.go:36-61 | a block as written, raw or compressed, decodes to its payload and leaves the reader just past it |
| Blocks.MetaBlockDecodes | metadata.go:38-61 | of any origin: a 15-bit length with the top bit for raw, and up to 8192 bytes, decompressed under a limit of 8192 |
| Blocks.MetaBlockRefused | metadata.go:43-50 | a length of 0 or over 8192 is corrupt, missing bytes are unreadable |
| Blocks.CursorOpens | metadata.go:76-86 | a cursor opens at any offset up to the end of its block |
| Blocks.CursorGoesOn | metadata.go:100-115 | at the end of a block the next is loaded and must not be empty |
| Blocks.ReferenceParts | metadata.go:128-130 | a reference is a block offset above 16 bits of in-block offset |
| Metadata.ReferencesReadBack | metadata.go:76-124 | for any stream and any position, a cursor opened at the reference of that position in the finished table reads back the bytes written from there on |
| Metadata.RefStable | write.go:165-168 | a reference depends only on what was written before it |
| Metadata.SameBlock | write.go:157-168 | two references share their block part exactly when their positions share a metadata block |
| Metadata.ReadsAreAStream | metadata.go:99-115 | reading a bytes and then b bytes is reading a + b bytes, errors included |
| Metadata.MetaCursor.ReadN | metadata.go:99-124 | the slice-at-a-time cursor returns what byte-at-a-time reading returns, ends in the same state, and loads at most one block a byte |
| Metadata.NewMetaCursor | metadata.go:74-97 | opening loads the block and refuses an offset past it |
| MetaWriters.MetaWriter.Write | write.go:170-176 | appends to the stream; the emitted blocks are the table of its full blocks and the pending buffer the rest, shorter than a block |
| MetaWriters.MetaWriter.Ref | write.go:165-168 | the reference of the end of the stream; its low half is the pending length, below 8192 |
| MetaWriters.MetaWriter.Finish | write.go:178-183 | the output is the finished table of the whole stream |
| Inodes.ReadBlockWords | inode.go:210-236 | the chunked loop reads the same words, leaves the same cursor and fails alike as word-by-word reading |
| Inodes.FilesAreDecoded | inode.go:149-174 | every regular inode that decodes has the block count its size calls for |
| Inodes.WrappedSizeHasNoBlocks | inode.go:96-103 | when the rounding addition wraps in 64 bits the count is 0 and the size exceeds a block |
| Format.BasicDirDecodes | inode.go:106-136 | a type 1 record, byte by byte, decodes to exactly its fields, mode included |
| Format.ExtDirDecodes | inode.go:138-147 | the same for type 8, with its 32-bit size and attribute index |
| Format.BasicFileDecodes | inode.go:149-160 | the same for type 2, block list included |
| Format.ExtFileDecodes | inode.go:162-174 | the same for type 9, with its 64-bit start and size and attribute index |
| Format.LinkDecodes | inode.go:176-198 | the same for types 3 and 10, the latter with its attribute index after the target |
| Format.LongLinkIsCorrupt | inode.go:181-184 | a target over 8192 bytes is refused |
| Format.OtherTypesDecode | inode.go:200-206 | devices, pipes and sockets decode to their mode; a type that is none of the fourteen is corrupt |
| Format.TooManyBlocks | inode.go:211-216 | more than 2^24 blocks are refused |
| Format.BitOrBits | inode.go:126 | type bits are or-ed into the mode word bit by bit |
| Records.FileRecordDecodes | inode.go:149-160 | a written file record decodes to its fields, block list included |
| Records.LinkRecordDecodes | inode.go:176-198 | a written link record decodes to its target |
| Records.DirRecordDecodes | inode.go:128-136 | a written directory record decodes to the truncated place and size of its listing |
| Format.HeaderBytes | write.go:400-410 | what the writer puts in an inode header, owner, group and time 0 included |
| Format.FileBytes | write.go:411-421 | ... in the record of a file |
| Format.LinkBytes | write.go:465-477 | ... of a link, its link count 1 |
| Format.DirBytes | write.go:494-504 | ... of a directory, its link count two more than its entries |
| Directory.BuildDirListing | write.go:508-540 | the nested loops produce the grouped encoding: headers of 1 to 256 entries sharing an inode-table block |
| Format.EntryBytes | write.go:528-537 | the eight bytes before a name: offset, 16-bit step, type, length less one |
| Format.GroupHeaderBytes | write.go:523-527 | the twelve bytes of a header: count less one, block, base number |
| Format.GroupBytes | write.go:515-538 | a header carries the 32-bit block and the number of its first entry |
| Directory.GroupLen | write.go:515-522 | a group is the longest run of entries of one inode-table block, at least one and at most 256 |
| Directory.ReadDirLoop | dir.go:26-86 | the nested loops over one cursor return what the recursive parser returns |
| Blocks.HeaderDecodes | dir.go:44-55 | a header of any origin: its count, at most 256, its block and its signed base |
| Blocks.EntryDecodes | dir.go:56-84 | an entry of any origin: reference, number modulo 2^32, type and name; a name over 256 bytes or past the end is corrupt, an entry past 4194304 too large |
| Blocks.ListingEnds | dir.go:44-56 | reading stops when there is no room for a header, or in a group for an entry |
| Blocks.DirectoryDecodes | dir.go:29-38 | a directory without bytes is empty, any other is read from its place in the table |
| DirectoryRoundTrip.DeltaRecovers | dir.go:52-80 | the number recovered from base and 16-bit delta is the original if and only if the two are within an int16 step modulo 2^32 |
| DirectoryRoundTrip.GroupOfListing | write.go:510-540 | the first header covers 1 to 256 entries near its base, and the rest can again be listed |
| DirectoryRoundTrip.ListingParses | dir.go:43-86 | an encoded listing of names of at most 256 bytes, with its exact size, parses to its entries in order |
| DirectoryRoundTrip.ListingCutShort | dir.go:43-86 | with fewer bytes than the listing has, or with a name over 256 bytes, parsing fails or yields a proper prefix of the entries; with all the bytes and such a name it fails |
| DirectoryRoundTrip.ListingRoundTrip | write.go:484-506 | through the stored 16-bit size a listing comes back if and only if it is at most 65532 bytes and has no name over 256; otherwise as an error or a prefix, and as an error if only a name is too long |
| Data.ReadFileLimit | data.go:135-226 | the extent scan and the assembly loop return what the block-indexed definition returns, with the same error |
| Data.CeilingRefusesLarger | data.go:157-159 | a ceiling refuses exactly the files that are larger and changes nothing else |
| Blocks.DataBlockDecodes | data.go:65-108 | a data block of any origin, raw or decompressed under the block size |
| Blocks.SizeWordBits | data.go:51-64 | of a size word only bit 24 is cleared, the bits above it count |
| Blocks.DataBlockRefused | data.go:86-91 | a block over the block size or outside the image is corrupt, one of no bytes is empty |
| Blocks.SparseBytes | data.go:190-195 | the bytes of a sparse block are zeros |
| Blocks.StoredBytes | data.go:195-205 | the bytes of any other block are those it decodes to; too few are corrupt |
| Blocks.BlocksAreAdjacent | data.go:184-206 | each block starts where the one before it ends |
| Blocks.FragmentEntryDecodes | data.go:240-265 | entry i is the i mod 512-th of 16 bytes in the block that pointer i / 512 names |
| Blocks.FragmentEntryRefused | data.go:241-261 | a pointer, a block or an entry that is not there is refused, each with its error |
| Blocks.TailBytes | data.go:210-222 | the bytes past the blocks are those of the fragment from the file's offset on |
| OpenFiles.WholeFileByBytes | data.go:136-226 | the whole-file read succeeds with C if and only if C has the declared size and every byte of the file is readable and equals that of C |
| OpenFiles.WholeFileFails | data.go:136-226 | ... and fails with the error of the first byte that cannot be read |
| OpenFiles.BadExtents | data.go:152-181 | a size out of reach, a block over the block size or one outside the image is corrupt before anything is read |
| OpenFiles.NewFile | openfile.go:74-107 | refuses a size out of reach, else the block map is the prefix sum of the block list |
| OpenFiles.Fetch | openfile.go:145-192 | one iteration yields at least one byte, or the error of the byte it stands at |
| OpenFiles.ReadAt | openfile.go:122-196 | fills the buffer with the file's bytes up to its end, the file's end or the first unreadable byte, says which, and leaves the rest of the buffer alone; fewer bytes only with an error |
| OpenFiles.ReadAtAgrees | openfile.go:76-196 | equals the whole-file read wherever that succeeds, EOF exactly past the end, and a full-range read succeeds if and only if the whole-file read does |
| OpenFiles.WrappedSizesRefused | openfile.go:84-88 | a size whose block count wraps is refused by both readers |
| OpenFiles.DecodedCount | data.go:152-156 | what decoding implies about reachable bytes, with and without a fragment |
| Cache.CacheStructure | cache.go:70-117 | after any run of puts: no duplicate keys, queue and map agree, values are the last put, the queue is the tail of the insertion order, at most max(cap, 1) entries |
| Cache.PutStep | cache.go:72-87 | a re-put never evicts; an insertion evicts at most the oldest surviving key |
| Cache.RunsAreTransparent | metadata.go:24-34 | in every interleaving every finished read got what an uncached read would, when requests that meet decode alike |
| Cache.InvisibleIffUnambiguous | data.go:74-108 | the cache is invisible in all interleavings if and only if requests that meet in it decode alike |
| Cache.MetadataCacheInvisible | metadata.go:19-34 | metadata reads never see the cache, in any image |
| Cache.DataCacheInvisible | data.go:65-108 | data reads never see it when each offset has one size word |
| CacheLimits.SharedStartLies | data.go:90-106 | an image whose root lists two regular files of one start and different block lengths: both paths resolve and both files read correctly without a cache, and with one of any size the second reader is given the first file's block |
| CacheLimits.SomeCodecDecodesTwoWays | compress.go:30-39 | a lawful codec under which such an image exists |
| Cache.BlockCache.PutMeta | cache.go:70-87 | the in-place put is the FIFO put |
| Cache.BlockCache.PutData | cache.go:100-117 | the same for data blocks |
| Cache.ReadMetaBlockCached | metadata.go:19-34 | returns the uncached answer and keeps the cache sound |
| Cache.ReadBlockCached | data.go:74-108 | the same for data blocks over unambiguous requests |
| Paths.SplitPath | path.go:73-87 | the loop keeps exactly the non-empty, non-"." segments |
| Paths.ComponentsOfJoin | path.go:73-87 | splitting a joined path gives its names back |
| Paths.ComponentsAreNames | path.go:77-87 | no component is empty, is "." or has a slash in it |
| Paths.DotsAreDropped | path.go:77-87 | "/./" is a separator and nothing else |
| Paths.SegmentInPath | path.go:73-87 | any other segment, ".." included, is kept as it is where it stands |
| Paths.FindsFirst | path.go:42-50 | of several entries of one name the first is found |
| Paths.ResolveFromLoop | path.go:26-71 | the loop with recursion on links computes the component-wise walk and terminates |
| Paths.ResolvesIffDerives | path.go:26-71 | success with an inode if and only if a finite derivation in which links nest at most 40 deep yields it |
| Paths.FewerHopsUsed | path.go:26-29 | success at a hop count gives the same inode at any smaller one |
| Paths.ResolveInTwoSteps | path.go:26-71 | p/q is p with links followed and then q from there, errors included |
| Paths.NeverALink | path.go:14-24 | with a directory as root a following resolve never returns a link |
| Paths.CyclesFail | path.go:11-29 | every path entering a cycle of links fails, whatever the targets pass through |
| Layout.PutBlockOk | write.go:453-463 | a data block goes to a fresh offset, is not empty on disk, and keeps every promise |
| Layout.FlushOk | write.go:441-451 | flushing keeps every promise and leaves nothing pending |
| Layout.AddTailOk | write.go:425-439 | the returned index and offset name the tail, the pending block never exceeds the block size |
| Layout.FragPromiseKept | write.go:425-451 | index and offset name the tail at every later moment |
| Layout.FragPromiseEmitted | write.go:236-237 | after the final flush the index is that of an emitted block |
| Layout.TailsArePacked | write.go:425-451 | a tail joins the pending block as long as both fit in 131072 bytes, otherwise the pending block is written out with an entry that names it |
| Layout.FileBlocksGrow | write.go:384-392 | a file's blocks are adjacent, each at the sum of the sizes before it |
| Format.SizeWord | write.go:453-463 | the size word is the length on disk, with bit 24 exactly for a raw block |
| Format.MetaHeaderBytes | write.go:186-196 | the header of a written metadata block is the length stored, with the top bit exactly for a raw one |
| Tree.NameLeIsInOrder | write.go:482 | the order of the writer is that of Go's strings: prefixes first, otherwise the first byte that differs decides |
| Tree.SortSorts | write.go:482 | entries are listed in that order |
| ImageWriters.CompressorOptions | write.go:321-333 | the ten bytes that follow the superblock for LZ4 |
| Placement.NumbersInOneBlock | write.go:400-401 | inodes starting in one metadata block have numbers at most 341 apart |
| Placement.NumbersFromOne | write.go:367 | inodes are numbered from 1 in the order they are written, modulo 2^32 |
| Placement.EntryFitsIff | write.go:517-530 | the reference rebuilt from a header's block and an entry's offset is the inode's own if and only if the block start is below 2^32 |
| Placement.ListingsAreListable | write.go:517-533 | whatever the tree and the order of children, no delta of a listing loses a number |
| Placement.ListingLength | write.go:508-540 | the length of a stored listing is the one computed from the tree, whatever the blocks compress to |
| Placement.BoundedIffFit | write.go:348-365 | all listings of a run can be read back if and only if those of the tree fit |
| Placement.StoredKept | write.go:348-365 | what was written of a subtree holds at every later moment of the run |
| Placement.PositionedKept | write.go:348-365 | inodes stay where the tree puts them at every later moment of the run |
| ImageWriters.ImageWriter.WriteDataBlock | write.go:453-463 | appends the kept bytes, records the block, returns its size word |
| ImageWriters.ImageWriter.FlushFragment | write.go:441-451 | the pending block becomes a data block and a table entry |
| ImageWriters.ImageWriter.AddToFragment | write.go:425-439 | returns an index and an offset that hold the tail |
| ImageWriters.ImageWriter.WriteBlocks | write.go:384-392 | the full blocks of a file, adjacent from the end of the image |
| ImageWriters.ImageWriter.EmitFile | write.go:369-423 | the file is stored, with its reference and number, within its size bounds |
| ImageWriters.ImageWriter.EmitLink | write.go:465-477 | the link is stored |
| ImageWriters.ImageWriter.EmitDir | write.go:479-506 | the sorted listing and the directory inode are stored |
| ImageWriters.ImageWriter.EmitNode | write.go:348-365 | the subtree is stored and stands where the tree puts it, every earlier promise is kept, the inode table grows by exactly the size of the subtree, data and listings by at most it |
| Positions.EncodedLen | write.go:508-540 | the length of the grouped encoding depends only on which entries' inodes share a metadata block |
| ImageWriters.ListingSize | write.go:508-540 | however entries fall into groups, 20 bytes an entry and the names bound the listing |
| FragmentTables.WriteFragmentTable | write.go:281-310 | blocks of up to 512 entries and an index of their offsets are appended |
| Format.FragmentBytes | write.go:291-297 | an entry is its start, its size word and four zero bytes |
| FragmentTables.EntryReadsBack | data.go:237-265 | every entry is found through the index |
| RoundTrip.BlockReadsBack | data.go:65-108 | every written data block is read back from its offset and word |
| RoundTrip.FragmentReadsBack | data.go:237-274 | a promised tail is in the fragment read through the table |
| RoundTrip.BlockCountsAgree | write.go:376-392 | writer and reader agree on the number of blocks in both fragment modes |
| RoundTrip.OffsetsLand | openfile.go:90-97 | the reader's running sum lands on the start of each block |
| RoundTrip.FileReadsBack | data.go:136-226 | a stored file is read back byte for byte |
| RoundTrip.FileStartIff | write.go:411 | the inode of a stored file of less than 2^32 bytes comes back with the start it was given if and only if that is below 2^32 |
| RoundTrip.FileReadsBackIff | write.go:414 | a stored file whose blocks, if any, start below 2^32 is read back if and only if its size is below 2^32 |
| RoundTrip.LinkReadsBackIff | inode.go:181-189 | a stored link is read back if and only if its target is at most 8192 bytes |
| RoundTrip.DirStartIff | write.go:485 | the inode of a stored directory comes back with the block its listing starts in if and only if that is below 2^32 |
| RoundTrip.StoredDirLists | write.go:479-506 | a stored directory lists its sorted children with references, numbers and types if and only if its listing is at most 65532 bytes and no name is over 256; otherwise an error or a prefix of them, and an error if only a name is too long |
| RoundTrip.ChildFound | path.go:36-52 | looking a name up in a stored directory whose listing fits finds the inode of the child with that name, and nothing when there is none |
| RoundTrip.ChildIsRight | path.go:36-52 | whatever of its listing can be read, a name found in a stored directory leads to the inode of the child with that name |
| TreePaths.TreeFindsNode | path.go:73-87 | in the tree the joined names of a node reached through directories resolve to that node |
| TreePaths.WalkAgrees | path.go:26-71 | walking in the image arrives only where walking in the tree does, links and hop limit included; when the listings fit it arrives wherever that does, and fails alike |
| TreePaths.NeverMisdirects | path.go:14-71 | in any image of a well-formed tree and a run in range, every path that resolves in the image resolves in the tree, to the node the inode stands for |
| TreePaths.FaithfulIffBounded | path.go:14-71 | an image of a well-formed tree, in range, agrees with it on every path if and only if every listing is at most 65532 bytes and every name at most 256 |
| Xattrs.BudgetHolds | xattr.go:127-205 | for any count and region, a successful read has the declared number of pairs and its charges are within the ceiling |
| Xattrs.ListReadsBack | xattr.go:123-205 | a stored list, inline and out-of-line, is read back if and only if its charges are within the budget, else refused as too large |
| Xattrs.ValueReadsBack | xattr.go:207-224 | an out-of-line reference yields exactly the value record stored there |
| Xattrs.AsMapHolds | xattr.go:139-204 | the keys are the names of the pairs, each with the value of its last pair |
| Xattrs.AttributesReadBack | xattr.go:127-205 | of a stored list the map holds exactly the stored attributes under their full names, or the list is refused, exactly when its cost exceeds the ceiling |
| Xattrs.BadNames | xattr.go:152-164 | a name over 8192 bytes or an unknown namespace is corrupt |
| Xattrs.BadValues | xattr.go:171-194 | an inline value over 8192 bytes or a reference not of 8 bytes is corrupt |
| Xattrs.PaidBeforeRead | xattr.go:142-151 | with less than 8 bytes of budget left the list is too large before anything is read |
| Xattrs.ReadXattrPairs | xattr.go:127-205 | the loop returns that map, of whatever list, and starts at most ceiling/8 + 1 iterations |

## Left out

- The bodies of the compressors and decompressors: external libraries; only their contract is modelled.
- Scanning a host directory (write.go:65-140): host file access; the model starts from the tree. `perm` is the mode masked with 0o7777, the type bits are the constructor.
- Packing and parsing the superblock, and Open: flat field packing; the fields used are carried as a record.
- The in-place filling of a node's reference and number and the in-place sort of its children: emitting returns them as values, and an insertion sort stands in for the library's sort.
- Reading the id table and the compressor-options block: the reader never uses them beyond framing; the writer's bytes for them are in the model.
- The unknown-compressor error of buildImage: the codec is a parameter.
- Owner ids, times, link counts on the reading side, and the text of error messages.
- Close and use after close, and the nil cache that always misses.
- Sharing of cached slices between readers: blocks are values here, so the rule that nobody writes into a cached slice is not modelled.
- The xattr id table and its header, and with them Xattrs: two-level indexing of the same shape as the fragment table.
- Memory limits: allocation within a checked bound always succeeds.
- Build.SmallFits: Small is sufficient and not necessary, because where a file's data starts and how long the finished tables are depends on how well the blocks compress; the condition on the listings is exact, and Build.RunFits states the rest for a run.
- RoundTrip.FileReadsBackIff: of a file whose blocks start at or past 2^32 only its inode is described (RoundTrip.FileStartIff); the bytes found at the truncated start may be anything.
- RoundTrip.StoredDirLists: names of more than 65536 bytes, whose length does not fit its 16-bit field and which no host directory holds, are not covered.
