/** buildImage (write.go), end to end: every node of the tree is read back from the image. */
module Build {
  import opened Bytes
  import opened Codecs
  import opened Metadata
  import opened Inodes
  import opened Data
  import opened Directory
  import opened Paths
  import opened Tree
  import opened Positions
  import opened Layout
  import opened Records
  import opened Placement
  import opened MetaWriters
  import opened ImageWriters
  import opened FragmentTables
  import opened RoundTrip
  import opened TreePaths

  /** The patched superblock: 96 bytes of the image are overwritten, whatever they say. */
  function Patch(data: seq<Byte>, header: seq<Byte>): (image: seq<Byte>)
    requires |header| == SUPERBLOCK <= |data|
    ensures |image| == |data|
  {
    header + data[SUPERBLOCK..]
  }

  /** Patching touches nothing that is referred to: every referenced byte is past it. */
  lemma PatchKeeps(data: seq<Byte>, header: seq<Byte>, at: int, piece: seq<Byte>)
    requires |header| == SUPERBLOCK <= |data| && Holds(data, at, piece) && SUPERBLOCK <= at
    ensures Holds(Patch(data, header), at, piece)
  {
    var image := Patch(data, header);
    forall i | at <= i < at + |piece|
      ensures image[i] == data[i]
    {
    }
    assert image[at..at + |piece|] == data[at..at + |piece|];
  }

  /** The id table comes last: a metadata block of the one id 0, and a pointer to it. */
  ghost predicate EndsInIds(st: Storage, data: seq<Byte>) {
    var ids := MetaBlock(st, [0, 0, 0, 0]);
    var at := |data| - |ids| - 8;
    SUPERBLOCK <= at && data[at..] == ids + LE64(at)
  }

  lemma IdsPatched(st: Storage, data: seq<Byte>, header: seq<Byte>)
    requires |header| == SUPERBLOCK <= |data| && EndsInIds(st, data)
    ensures EndsInIds(st, Patch(data, header))
  {
    hide LE64, MetaBlock;
    var ids := MetaBlock(st, [0, 0, 0, 0]);
    var at := |data| - |ids| - 8;
    assert Patch(data, header)[at..] == data[at..];
  }

  /** The tables after the data, as buildImage lays them out; `data` is the unpatched image. */
  ghost predicate LaidOut(st: Storage, w: Snapshot, data: seq<Byte>, sb: Superblock, offs: seq<nat>) {
    && Valid(st, w) && w.fragBuf == [] && w.data <= data
    && sb.blockSize == BLOCK_SIZE && sb.fragCount == |w.fragEntries| % TWO_32
    && sb.inodeTable == |w.data| && Holds(data, sb.inodeTable, Table(st, w.inodeLog))
    && sb.dirTable == |w.data| + |Table(st, w.inodeLog)| && Holds(data, sb.dirTable, Table(st, w.dirLog))
    && (w.fragEntries != [] ==> TableIn(st, data, sb.fragTable, offs, w.fragEntries))
    && (w.fragEntries == [] ==> sb.fragTable == 0xFFFF_FFFF_FFFF_FFFF)
    && EndsInIds(st, data)
    && |data| <= |w.data| + |Table(st, w.inodeLog)| + |Table(st, w.dirLog)| + 26 * |w.fragEntries| + 14
  }

  lemma TablePatched(st: Storage, data: seq<Byte>, header: seq<Byte>, start: nat, offs: seq<nat>, es: seq<FragEntry>)
    requires |header| == SUPERBLOCK <= |data| && TableIn(st, data, start, offs, es)
    ensures TableIn(st, Patch(data, header), start, offs, es)
  {
    hide Patch, MetaBlock, FragPayload, LE64, Group;
    forall j | 0 <= j < |offs|
      ensures GroupAt(st, Patch(data, header), offs[j], es, j)
      ensures Holds(Patch(data, header), start + 8 * j, LE64(offs[j]))
    {
      assert GroupAt(st, data, offs[j], es, j);
      assert Holds(data, start + 8 * j, LE64(offs[j]));
      PatchKeeps(data, header, offs[j], MetaBlock(st, FragPayload(Group(es, j))));
      PatchKeeps(data, header, start + 8 * j, LE64(offs[j]));
    }
  }

  lemma Patched(data: seq<Byte>, header: seq<Byte>)
    requires |header| == SUPERBLOCK <= |data|
    ensures Patch(data, header)[..96] == header
  {
  }

  /** What follows the superblock placeholder at the start still follows the superblock. */
  lemma OptionsKept(w0: Snapshot, w1: Snapshot, w: Snapshot, data: seq<Byte>, header: seq<Byte>, options: seq<Byte>)
    requires Extends(w0, w1) && Extends(w1, w) && w.data <= data && |header| == SUPERBLOCK
    requires w0.data == Zeros(96) + options
    ensures |data| >= SUPERBLOCK && options <= Patch(data, header)[96..]
  {
    hide FragBlock;
    assert w0.data <= data;
    assert data[96..96 + |options|] == w0.data[96..96 + |options|] == options;
  }

  ghost predicate SizeKnownOrNot(size: int, image: seq<Byte>) {
    size <= 0 || size == |image|
  }

  /** A laid-out image, patched and opened, is sealed: the 64-bit offsets hold, the fragments can
      be counted in 32 bits. */
  lemma Seals(st: Storage, w: Snapshot, data: seq<Byte>, sb: Superblock, offs: seq<nat>, header: seq<Byte>, size: int)
    requires LaidOut(st, w, data, sb, offs) && |header| == SUPERBLOCK <= |data|
    requires |w.fragEntries| < TWO_32 && |data| < 0x8000_0000_0000_0000 && SizeKnownOrNot(size, data)
    ensures Sealed(FS(Patch(data, header), size, sb, st.codec), st, w)
  {
    hide Patch, Table, TableIn, Lawful, ReadFragmentEntry, WordOf, FragOk, Spaced, EndsInIds, LE64, MetaBlock;
    var image := Patch(data, header);
    var fs := FS(image, size, sb, st.codec);
    PatchKeeps(data, header, sb.inodeTable, Table(st, w.inodeLog));
    PatchKeeps(data, header, sb.dirTable, Table(st, w.dirLog));
    forall o | o in w.blocks
      ensures Holds(image, o, Keep(st, w.blocks[o]).bytes)
    {
      assert BlockOk(st, w.data, o, w.blocks[o]);
      HoldsGrows(w.data, data, o, Keep(st, w.blocks[o]).bytes);
      PatchKeeps(data, header, o, Keep(st, w.blocks[o]).bytes);
    }
    if w.fragEntries != [] {
      TablePatched(st, data, header, sb.fragTable, offs, w.fragEntries);
    }
    forall i | 0 <= i < |w.fragEntries|
      ensures ReadFragmentEntry(fs, i) == Ok(w.fragEntries[i])
    {
      EntryInRange(st, w, i);
      EntryReadsBack(fs, st, offs, w.fragEntries, i);
    }
  }

  lemma EntryInRange(st: Storage, w: Snapshot, i: nat)
    requires Valid(st, w) && i < |w.fragEntries| && |w.data| < TWO_64
    ensures w.fragEntries[i].start < TWO_64 && w.fragEntries[i].word < TWO_32
  {
    hide Lawful, WordOf, Spaced;
    var fe := w.fragEntries[i];
    assert FragOk(st, w, fe);
    assert BlockOk(st, w.data, fe.start, w.blocks[fe.start]);
    WordFacts(st, w.blocks[fe.start]);
  }

  // ----- When the image is faithful -----

  /** A run stayed within the widths of the fields it truncates to. */
  ghost predicate RunFits(st: Storage, w: Snapshot, n: Node, p: Placed, image: seq<Byte>) {
    && RefFits(st, w, p) && InRange(st, w, n, p)
    && |w.fragEntries| < TWO_32 && |image| < 0x8000_0000_0000_0000
  }

  /** In an image of a run in range every path resolves to what it names in the tree, if and
      only if the tree's listings fit, which is a fact of the tree. */
  lemma SealedIsFaithful(fs: FS, frags: bool, st: Storage, w: Snapshot, root: Node, p: Placed, base: nat, before: nat)
    requires Sound(fs, frags, st, w, root, p) && Rooted(fs, st, w, p)
    requires Positioned(frags, w, root, p, base, before)
    ensures Faithful(fs, root) <==> ListingsFit(frags, root, base)
  {
    hide Faithful, Positioned, ListingsFit, ListingsBounded, Sealed, Stored, WellFormed, RefFits;
    FaithfulIffBounded(fs, frags, st, w, root, p);
    BoundedIffFit(frags, st, w, root, p, base, before);
  }

  // ----- Small trees stay in range -----

  lemma {:induction false} SmallInRange(frags: bool, st: Storage, w: Snapshot, n: Node, p: Placed, base: nat,
                                        before: nat)
    requires Positioned(frags, w, n, p, base, before) && Stored(frags, st, w, n, p) && StartsFit(frags, n, before)
    requires |Table(st, w.inodeLog)| < TWO_32 && |Table(st, w.dirLog)| < TWO_32
    ensures InRange(st, w, n, p) && EntryFits(st, w, p)
    decreases n
  {
    hide Table, InodeStart, KidBase, SizeOfKids, WordCount, StoredFile, StoredLink, ListingOf, RefAt, DirRecord,
         BlockStart;
    BlockStartWithin(st, w.inodeLog, w.starts[p.id]);
    if n.Dir? {
      BlockStartWithin(st, w.dirLog, p.dirPos);
      forall i | 0 <= i < |n.kids|
        ensures InRange(st, w, n.kids[i].node, p.kids[i]) && EntryFits(st, w, p.kids[i])
      {
        SmallInRange(frags, st, w, n.kids[i].node, p.kids[i], KidBase(frags, n.kids, i, base),
                     before + SizeOfKids(frags, n.kids[..i]).data);
      }
    }
  }

  lemma SmallFits(frags: bool, st: Storage, w0: Snapshot, w: Snapshot, n: Node, p: Placed, image: seq<Byte>)
    requires Small(frags, n) && Within(w0, w, SizeOf(frags, n)) && Valid(st, w) && w.fragBuf == []
    requires |w0.data| <= MAX_PREFIX && w0 == Snapshot(w0.data, [], [], [], map[], [], [])
    requires Positioned(frags, w, n, p, 0, MAX_PREFIX) && Stored(frags, st, w, n, p)
    requires |image| <= |w.data| + |Table(st, w.inodeLog)| + |Table(st, w.dirLog)| + 26 * |w.fragEntries| + 14
    ensures RunFits(st, w, n, p, image)
  {
    hide Table, SizeOf, StartsFit, Stored, InRange, Positioned, BlockStart, Valid;
    TableLength(st, w.inodeLog);
    TableLength(st, w.dirLog);
    ValidSpacing(st, w);
    FewStarts(w.starts, |w.inodeLog|);
    SmallInRange(frags, st, w, n, p, 0, MAX_PREFIX);
  }

  lemma FewStarts(starts: seq<nat>, end: nat)
    requires Spaced(starts, end)
    ensures 24 * |starts| <= end
  {
    if starts != [] {
      var last := |starts| - 1;
      assert last > 0 ==> starts[0] + 24 * last <= starts[last];
    }
  }

  // ----- buildImage -----

  /** buildImage for a tree, with or without fragments, raw or compressed with any lawful codec.
      `header` is the packed superblock. If the tree is well-formed and the run stayed in range,
      then, whatever size the caller of Open declares, no path misdirects, and the image agrees
      with the tree on every path if and only if the tree's listings fit. A small tree keeps
      every run in range. */
  method BuildImage(root: Node, st: Storage, frags: bool, lz4: bool, header: seq<Byte>)
    returns (image: seq<Byte>, sb: Superblock, ghost w: Snapshot, ghost p: Placed)
    requires Lawful(st.codec) && |header| == SUPERBLOCK
    ensures sb.blockSize == 131072 && Valid(st, w) && Stored(frags, st, w, root, p)
    ensures Seated(w, p) && sb.rootInode == RefOf(st, w, p) && Positioned(frags, w, root, p, 0, MAX_PREFIX)
    ensures sb.inodeTable == |w.data| && sb.dirTable == |w.data| + |Table(st, w.inodeLog)|
    ensures w.fragEntries == [] ==> sb.fragTable == 0xFFFF_FFFF_FFFF_FFFF
    ensures |header| == 96 <= |image| && image[..96] == header && EndsInIds(st, image)
    ensures CompressorOptions(lz4) <= image[96..]
    ensures Small(frags, root) ==> RunFits(st, w, root, p, image)
    ensures WellFormed(root) && RunFits(st, w, root, p, image) ==>
              forall size | SizeKnownOrNot(size, image) ::
                var fs := FS(image, size, sb, st.codec);
                && Sound(fs, frags, st, w, root, p) && Rooted(fs, st, w, p) && Honest(fs, root)
                && (Faithful(fs, root) <==> ListingsFit(frags, root, 0))
  {
    hide Valid, Table, MetaWriter.Valid, RefOf, Sealed, Stored, WellFormed, Small, SizeOf, Faithful, Honest, LaidOut,
         Seated, Patch, Lawful, TableIn, Positioned, ListingsFit, RunFits, Sound, Pieces, EndsInIds;
    var iw := new ImageWriter(st, frags, lz4);
    ghost var w0 := iw.View();
    var rootRef, rootNum;
    rootRef, rootNum, p := iw.EmitNode(root);
    ghost var w1 := iw.View();
    FlushOk(st, w1);
    FlushSize(st, w1);
    iw.FlushFragment();
    w := iw.View();
    StoredKept(frags, st, w1, w, root, p);
    SeatedKept(st, w1, w, p);
    PositionedKept(frags, w1, w, root, p, 0, |w0.data|, MAX_PREFIX);
    iw.inodes.Finish();
    iw.dirs.Finish();
    var data: seq<Byte>;
    ghost var offs: seq<nat>;
    data, sb, offs := WriteTables(st, w, iw.data, iw.inodes.out, iw.dirs.out, iw.fragEntries, rootRef);
    LaidOutData(st, w, data, sb, offs);
    image := Patch(data, header);
    IdsPatched(st, data, header);
    Patched(data, header);
    OptionsKept(w0, w1, w, data, header, CompressorOptions(lz4));
    if Small(frags, root) {
      SmallFits(frags, st, w0, w, root, p, image);
    }
    if WellFormed(root) && RunFits(st, w, root, p, image) {
      forall size | SizeKnownOrNot(size, image)
        ensures Sound(FS(image, size, sb, st.codec), frags, st, w, root, p)
        ensures Rooted(FS(image, size, sb, st.codec), st, w, p)
        ensures Honest(FS(image, size, sb, st.codec), root)
        ensures Faithful(FS(image, size, sb, st.codec), root) <==> ListingsFit(frags, root, 0)
      {
        ImageIsSound(frags, st, w, root, p, data, sb, offs, header, size);
        NeverMisdirects(FS(image, size, sb, st.codec), frags, st, w, root, p);
        SealedIsFaithful(FS(image, size, sb, st.codec), frags, st, w, root, p, 0, MAX_PREFIX);
      }
    }
  }

  lemma ImageIsSound(frags: bool, st: Storage, w: Snapshot, n: Node, p: Placed,
                     data: seq<Byte>, sb: Superblock, offs: seq<nat>, header: seq<Byte>, size: int)
    requires LaidOut(st, w, data, sb, offs) && |header| == SUPERBLOCK <= |data| && SizeKnownOrNot(size, data)
    requires WellFormed(n) && Stored(frags, st, w, n, p) && RunFits(st, w, n, p, Patch(data, header))
    ensures Sound(FS(Patch(data, header), size, sb, st.codec), frags, st, w, n, p)
  {
    hide LaidOut, Sealed, WellFormed, Stored, InRange, RefFits;
    Seals(st, w, data, sb, offs, header, size);
  }

  lemma FlushSize(st: Storage, w: Snapshot)
    ensures var w' := Flush(st, w);
            && |w'.data| + |w'.fragBuf| <= |w.data| + |w.fragBuf| && Pieces(w') == Pieces(w)
            && w'.inodeLog == w.inodeLog && w'.dirLog == w.dirLog && w'.starts == w.starts
  {
  }

  lemma LaidOutData(st: Storage, w: Snapshot, data: seq<Byte>, sb: Superblock, offs: seq<nat>)
    requires LaidOut(st, w, data, sb, offs)
    ensures |data| >= SUPERBLOCK && sb.blockSize == BLOCK_SIZE && EndsInIds(st, data) && w.data <= data
    ensures sb.inodeTable == |w.data| && sb.dirTable == |w.data| + |Table(st, w.inodeLog)|
    ensures w.fragEntries == [] ==> sb.fragTable == 0xFFFF_FFFF_FFFF_FFFF
    ensures |data| <= |w.data| + |Table(st, w.inodeLog)| + |Table(st, w.dirLog)| + 26 * |w.fragEntries| + 14
  {
  }

  /** The tables, in the order buildImage appends them. */
  method WriteTables(st: Storage, ghost w: Snapshot, before: seq<Byte>, inodeOut: seq<Byte>, dirOut: seq<Byte>,
                     fragEntries: seq<FragEntry>, rootRef: nat)
    returns (data: seq<Byte>, sb: Superblock, ghost offs: seq<nat>)
    requires Valid(st, w) && w.fragBuf == [] && before == w.data && fragEntries == w.fragEntries
    requires inodeOut == Table(st, w.inodeLog) && dirOut == Table(st, w.dirLog)
    ensures LaidOut(st, w, data, sb, offs) && sb.rootInode == rootRef
  {
    hide Table, TableIn, Lawful, BlockOk, FragOk, MetaBlock, EndsInIds, LE64;
    data := before;
    var inodeTable := |data|;
    data := data + inodeOut;
    ghost var d1 := data;
    var dirTable := |data|;
    data := data + dirOut;
    ghost var d2 := data;
    var fragTable := TWO_64 - 1;
    offs := [];
    if |fragEntries| > 0 {
      data, fragTable, offs := WriteFragmentTable(st, data, fragEntries);
    }
    ghost var d3 := data;
    var idValuesAt := |data|;
    IdBlockSize(st);
    data := data + MetaBlock(st, [0, 0, 0, 0]);
    var idTable := |data|;
    data := data + LE64(idValuesAt);
    IdsAppended(st, d3);
    sb := Superblock(BLOCK_SIZE, |fragEntries| % TWO_32, rootRef, inodeTable, dirTable, fragTable);
    assert Holds(d1, inodeTable, inodeOut) && Holds(d2, dirTable, dirOut);
    HoldsGrows(d1, data, inodeTable, inodeOut);
    HoldsGrows(d2, data, dirTable, dirOut);
    if |fragEntries| > 0 {
      FragTableGrows(st, d3, data, fragTable, offs, fragEntries);
    }
  }

  lemma IdsAppended(st: Storage, data: seq<Byte>)
    requires SUPERBLOCK <= |data|
    ensures EndsInIds(st, data + MetaBlock(st, [0, 0, 0, 0]) + LE64(|data|))
  {
    hide LE64, MetaBlock;
    var ids := MetaBlock(st, [0, 0, 0, 0]);
    assert (data + ids + LE64(|data|))[|data|..] == ids + LE64(|data|);
  }

  lemma IdBlockSize(st: Storage)
    ensures |MetaBlock(st, [0, 0, 0, 0])| <= 6
  {
  }

  lemma FragTableGrows(st: Storage, data: seq<Byte>, data': seq<Byte>, start: nat, offs: seq<nat>, es: seq<FragEntry>)
    requires TableIn(st, data, start, offs, es) && data <= data'
    ensures TableIn(st, data', start, offs, es)
  {
    hide LE64, GroupsAt;
    GroupsGrow(st, data, data', offs, es);
    forall j | 0 <= j < |offs|
      ensures Holds(data', start + 8 * j, LE64(offs[j]))
    {
      assert Holds(data, start + 8 * j, LE64(offs[j]));
      HoldsGrows(data, data', start + 8 * j, LE64(offs[j]));
    }
  }

  // ----- Trees the theorem speaks about -----

  /** A directory with one file. */
  function OneFile(name: Name, data: seq<Byte>): Node {
    Dir(0x1ED, [Kid(name, File(0x1A4, data))])
  }

  lemma OneFileIsCovered(frags: bool, name: Name, data: seq<Byte>)
    requires ValidName(name) && |name| <= MAX_NAME && |data| <= 0x1000_0000
    ensures var root := OneFile(name, data);
            && WellFormed(root) && Small(frags, root) && ListingsFit(frags, root, 0)
            && TreeResolve(root, Join([name]), true) == Ok(File(0x1A4, data))
  {
    var root, kids := OneFile(name, data), [Kid(name, File(0x1A4, data))];
    assert kids[..0] == [];
    assert NameCost(kids) == 20 + |name|;
    assert SizeOfKids(frags, kids) == SizeOf(frags, File(0x1A4, data));
    OneEntry(frags, kids);
    assert kids[0].name == name && [name][1..] == [name][..0];
    TreeFindsNode(root, [name], true);
  }

  lemma OneEntry(frags: bool, kids: seq<Kid>)
    requires |kids| == 1
    ensures ListingLen(frags, kids, 0) == 20 + |kids[0].name|
  {
    var es := Spots(frags, kids, 0);
    OneListed(es);
  }

  lemma OneListed(es: seq<DirEntry>)
    requires |es| == 1
    ensures SortByName(es) == es && ListLen(es) == 20 + |es[0].name|
  {
    hide NameLe, Floor;
    assert es[1..] == [] && es == [es[0]] + [];
    assert SortByName(es[1..]) == [];
    var g := SpotGroup(es);
    assert es[..g] == es && es[g..] == [];
    assert NamesLen(es[1..]) == 0;
  }

  /** Enough long names make a listing that no image can hold, whatever else the tree has. */
  lemma LongNamesDoNotFit(frags: bool, n: Node, base: nat)
    requires n.Dir? && |n.kids| >= 250 && forall i :: 0 <= i < |n.kids| ==> |n.kids[i].name| >= 255
    ensures !ListingsFit(frags, n, base)
  {
    hide InodeStart, KidBase, SortByName;
    var es := Spots(frags, n.kids, base);
    var sorted := SortByName(es);
    SameElements(sorted, es);
    forall i | 0 <= i < |sorted|
      ensures |sorted[i].name| >= 255
    {
      assert sorted[i] in es;
    }
    LongListing(sorted);
  }

  /** 250 names of 255 bytes, all different, with no slash and no zero byte in them. */
  function LongName(i: nat): (n: Name)
    requires i < 250
    ensures |n| == 255 && n[0] == (if i + 1 == SLASH then 251 else i + 1) && ValidName(n) && 0 !in n
  {
    seq(255, k => if k != 0 then 97 else if i + 1 == SLASH then 251 else i + 1)
  }

  function LongNames(): Node {
    Dir(0x1ED, seq(250, i requires 0 <= i < 250 => Kid(LongName(i), File(0x1A4, []))))
  }

  /** A directory of 250 empty files that a Linux host can hold: well-formed, small, and never
      read back from the image built of it. */
  lemma LongNamesAreLost(frags: bool)
    ensures WellFormed(LongNames()) && Small(frags, LongNames()) && !ListingsFit(frags, LongNames(), 0)
  {
    hide LongName, WellFormed, Small, ListingsFit;
    LongNamesWellFormed();
    LongNamesSmall(frags);
    LongNamesDoNotFit(frags, LongNames(), 0);
  }

  lemma LongNamesWellFormed()
    ensures WellFormed(LongNames())
  {
    hide LongName, ValidName;
    var kids := LongNames().kids;
    forall i, j | 0 <= i < j < |kids|
      ensures kids[i].name != kids[j].name
    {
      assert kids[i].name[0] != kids[j].name[0];
    }
  }

  lemma LongNamesSmall(frags: bool)
    ensures Small(frags, LongNames())
  {
    hide LongName, SizeOfKids, NameCost;
    var kids := LongNames().kids;
    EmptyFilesSize(frags, kids);
    assert SizeOf(frags, LongNames()) == Sizes(0, 8032, 68750);
    forall i | 0 <= i < |kids|
      ensures StartsFit(frags, kids[i].node, MAX_PREFIX + SizeOfKids(frags, kids[..i]).data)
    {
      assert kids[i].node == File(0x1A4, []);
    }
  }

  lemma {:induction false} EmptyFilesSize(frags: bool, kids: seq<Kid>)
    requires forall i :: 0 <= i < |kids| ==> |kids[i].name| == 255 && kids[i].node == File(0x1A4, [])
    ensures SizeOfKids(frags, kids) == Sizes(0, 32 * |kids|, 0) && NameCost(kids) == 275 * |kids|
    decreases |kids|
  {
    if kids != [] {
      EmptyFilesSize(frags, kids[..|kids| - 1]);
    }
  }
}
