/** imageWriter (write.go): emitting a tree, with the promises every step keeps. */
module ImageWriters {
  import opened Bytes
  import opened Codecs
  import opened Metadata
  import opened Inodes
  import opened Data
  import opened Directory
  import opened Tree
  import opened Positions
  import opened Layout
  import opened Records
  import opened Placement
  import opened MetaWriters

  /** Fragment blocks, the pending one included. */
  function Pieces(w: Snapshot): nat {
    |w.fragEntries| + if w.fragBuf == [] then 0 else 1
  }

  /** The growth of a run between two moments: the inode table by exactly so much, data and
      listings by at most so much, and at most one fragment block for each inode. */
  ghost predicate Within(w: Snapshot, w': Snapshot, s: Sizes) {
    && |w'.data| + |w'.fragBuf| <= |w.data| + |w.fragBuf| + s.data
    && |w'.inodeLog| == |w.inodeLog| + s.inodes
    && |w'.dirLog| <= |w.dirLog| + s.listings
    && Pieces(w') + |w.starts| <= Pieces(w) + |w'.starts|
  }

  /** writeCompressorOptions: for LZ4 a raw metadata block with version 1 and flag 1. */
  function CompressorOptions(lz4: bool): (r: seq<Byte>)
    ensures r == if lz4 then [8, 128, 1, 0, 0, 0, 1, 0, 0, 0] else []
  {
    if lz4 then LE16(MetaHeader(8, false)) + LE32(1) + LE32(1) else []
  }

  class ImageWriter {
    const st: Storage
    const frags: bool
    const inodes: MetaWriter
    const dirs: MetaWriter
    var data: seq<Byte>
    var inodeNum: nat
    var fragBuf: seq<Byte>
    var fragEntries: seq<FragEntry>
    ghost var starts: seq<nat>
    ghost var blocks: map<nat, seq<Byte>>

    ghost function View(): Snapshot
      reads this, inodes, dirs
    {
      Snapshot(data, inodes.log, dirs.log, starts, blocks, fragEntries, fragBuf)
    }

    ghost predicate Good()
      reads this, inodes, dirs
    {
      && inodes != dirs && inodes.st == st && dirs.st == st
      && inodes.Valid() && dirs.Valid()
      && Valid(st, View())
      && inodeNum == |starts| % TWO_32
    }

    /** A writer whose image starts with the superblock placeholder and, for LZ4, the raw
        compressor-options block. */
    constructor (st: Storage, frags: bool, lz4: bool)
      requires Lawful(st.codec)
      ensures this.st == st && this.frags == frags
      ensures fresh(inodes) && fresh(dirs) && Good()
      ensures data == Zeros(96) + CompressorOptions(lz4)
      ensures View() == Snapshot(data, [], [], [], map[], [], [])
    {
      hide CompressorOptions, Lawful;
      this.st := st;
      this.frags := frags;
      inodes := new MetaWriter(st);
      dirs := new MetaWriter(st);
      data := Zeros(SUPERBLOCK) + CompressorOptions(lz4);
      inodeNum, fragBuf, fragEntries := 0, [], [];
      starts, blocks := [], map[];
    }

    method WriteDataBlock(block: seq<Byte>) returns (word: nat)
      requires Good() && 1 <= |block| <= BLOCK_SIZE
      modifies this
      ensures Good() && View() == PutBlock(st, old(View()), block) && word == WordOf(st, block)
    {
      hide Valid, OnDisk, Floor, Table;
      PutBlockOk(st, View(), block);
      var kept := Keep(st, block);
      blocks := blocks[|data| := block];
      data := data + kept.bytes;
      word := |kept.bytes| % TWO_32;
      if !kept.compressed && !IsRaw(word) {
        word := word + UNCOMPRESSED_BIT;
      }
    }

    method FlushFragment()
      requires Good()
      modifies this
      ensures Good() && View() == Flush(st, old(View()))
    {
      hide Valid, WordOf, Floor, Table;
      FlushOk(st, View());
      ghost var before := View();
      if |fragBuf| == 0 {
        return;
      }
      ValidBuffer(st, View());
      var start := |data|;
      var word := WriteDataBlock(fragBuf);
      fragEntries := fragEntries + [FragEntry(start, word)];
      fragBuf := [];
      assert View() == Flush(st, before);
    }

    /** Returns the index and the offset a file inode records; the block they name need not
        have been emitted yet. */
    method AddToFragment(tail: seq<Byte>) returns (idx: nat, offset: nat)
      requires Good() && |tail| <= BLOCK_SIZE
      modifies this
      ensures Good() && View() == AddTail(st, old(View()), tail)
      ensures FragHolds(View(), idx, offset, tail)
    {
      hide Valid, WordOf, Flush, Floor, Table, FragHolds;
      AddTailOk(st, View(), tail);
      FlushOk(st, View());
      if |fragBuf| + |tail| > BLOCK_SIZE {
        FlushFragment();
      }
      offset := |fragBuf|;
      idx := |fragEntries|;
      fragBuf := fragBuf + tail;
    }

    method NextInode() returns (num: nat)
      modifies this`inodeNum
      ensures num == inodeNum == (old(inodeNum) + 1) % TWO_32
    {
      inodeNum := (inodeNum + 1) % TWO_32;
      num := inodeNum;
    }

    /** Appends an inode record after its number and reference were handed out together. */
    method WriteInode(record: seq<Byte>, num: nat)
      requires inodes != dirs && inodes.st == st && dirs.st == st && inodes.Valid() && dirs.Valid()
      requires Valid(st, View()) && num == inodeNum == Number(|starts|) && |record| >= 24
      modifies this, inodes
      ensures Good() && View() == AddInode(old(View()), record)
    {
      hide Valid, Floor, Table;
      AddInodeOk(st, View(), record);
      inodes.Write(record);
      starts := starts + [|inodes.log| - |record|];
    }

    /** The full data blocks of a file, adjacent from the current end of the image on. */
    method WriteBlocks(bytes: seq<Byte>) returns (words: seq<nat>)
      requires Good()
      modifies this
      ensures Good() && Extends(old(View()), View())
      ensures FileBlocks(st, View(), |old(data)|, words, bytes)
      ensures View() == old(View()).(data := data, blocks := blocks)
      ensures |data| <= |old(data)| + |bytes| && |words| == (|bytes| + BLOCK_SIZE - 1) / BLOCK_SIZE
      ensures inodeNum == old(inodeNum)
    {
      hide Valid, WordOf, OnDisk, Floor, Table, FileBlocks, FragBlock, MetaWriter.Valid;
      ghost var before := View();
      words := [];
      var off := 0;
      NoBlocks(st, View(), |data|);
      assert bytes[..0] == [];
      while off < |bytes|
        invariant 0 <= off <= |bytes| && (off == |bytes| || off == |words| * BLOCK_SIZE)
        invariant off <= |words| * BLOCK_SIZE < |bytes| + BLOCK_SIZE
        invariant Good() && Extends(before, View())
        invariant FileBlocks(st, View(), |before.data|, words, bytes[..off])
        invariant |data| == |before.data| + DiskBytes(words) <= |before.data| + off
        invariant View() == before.(data := data, blocks := blocks)
        invariant inodeNum == old(inodeNum)
      {
        var end := Min(off + BLOCK_SIZE, |bytes|);
        var next := bytes[off..end];
        ghost var w := View();
        PutBlockOk(st, w, next);
        FileBlocksGrow(st, w, |before.data|, words, bytes[..off], next);
        ExtendsTransitive(before, w, PutBlock(st, w, next));
        assert bytes[..end] == bytes[..off] + next;
        var word := WriteDataBlock(next);
        words := words + [word];
        off := end;
      }
      assert bytes[..off] == bytes;
      RoundedUp(|bytes|, |words|);
    }

    /** emitFileInode: the data blocks, then the tail into a fragment, then the inode. */
    method EmitFile(perm: nat, bytes: seq<Byte>) returns (ref: nat, num: nat, ghost p: Placed)
      requires Good()
      modifies this, inodes
      ensures Good() && Extends(old(View()), View())
      ensures StoredFile(frags, st, View(), perm, bytes, p)
      ensures ref == RefOf(st, View(), p) && num == Number(p.id)
      ensures Within(old(View()), View(), SizeOf(frags, File(perm, bytes)))
      ensures Positioned(frags, View(), File(perm, bytes), p, |old(View()).inodeLog|, |old(View()).data|)
    {
      hide Valid, WordOf, OnDisk, Floor, Table, FileBlocks, FragBlock, MetaWriter.Valid, RefAt, FragHolds,
           FileRecord, Extends, AddTail, FullLen, Holds, StoredFile, Within, Positioned, WordCount, Keep, SizeOf;
      ghost var w0 := View();
      var full := FullLen(frags, bytes);
      var start := |data|;
      var words := WriteBlocks(bytes[..full]);
      ghost var w1 := View();
      var fragIdx, fragOff := INVALID_FRAG, 0;
      ExtendsItself(w1);
      if frags && full < |bytes| {
        AddTailOk(st, View(), bytes[full..]);
        AddTailSize(st, View(), bytes[full..]);
        fragIdx, fragOff := AddToFragment(bytes[full..]);
      }
      ghost var w2 := View();
      num := NextInode();
      ref := inodes.Ref();
      var record := FileRecord(perm, num, start, fragIdx, fragOff, |bytes|, words);
      AddInodeOk(st, View(), record);
      WriteInode(record, num);
      p := PFile(|w2.starts|, start, words, fragIdx, fragOff);
      ghost var w3 := View();
      ExtendsTransitive(w0, w1, w2);
      ExtendsTransitive(w0, w2, w3);
      DataGrew(w0, w1);
      FileRecorded(frags, st, w1, w2, w3, perm, bytes, p);
      RefStable(st, w2.inodeLog, w3.inodeLog, |w2.inodeLog|);
      FullWords(frags, bytes);
      FileGrew(frags, w0, w2, w3, perm, bytes, p, record);
    }

    method EmitLink(perm: nat, target: seq<Byte>) returns (ref: nat, num: nat, ghost p: Placed)
      requires Good()
      modifies this, inodes
      ensures Good() && Extends(old(View()), View())
      ensures StoredLink(View(), perm, target, p)
      ensures ref == RefOf(st, View(), p) && num == Number(p.id)
      ensures Within(old(View()), View(), SizeOf(frags, Link(perm, target)))
      ensures Positioned(frags, View(), Link(perm, target), p, |old(View()).inodeLog|, |old(View()).data|)
    {
      hide Valid, Floor, Table, MetaWriter.Valid, RefAt, LinkRecord, Extends;
      ghost var w0 := View();
      num := NextInode();
      ref := inodes.Ref();
      var record := LinkRecord(perm, num, target);
      AddInodeOk(st, View(), record);
      WriteInode(record, num);
      p := PLink(|w0.starts|);
      RefStable(st, w0.inodeLog, View().inodeLog, |w0.inodeLog|);
    }

    /** emitDirInode: the children, already emitted, are sorted by name and listed; then the
        inode records where. */
    method EmitDir(perm: nat, ghost kids: seq<Kid>, entries: seq<DirEntry>, ghost ps: seq<Placed>)
      returns (ref: nat, num: nat, ghost p: Placed)
      requires Good() && |kids| == |ps| && AllSeated(View(), ps) && entries == EntriesOf(st, View(), kids, ps)
      modifies this, inodes, dirs
      ensures Good() && Extends(old(View()), View())
      ensures StoredDir(st, View(), perm, kids, p) && p.kids == ps
      ensures ref == RefOf(st, View(), p) && num == Number(p.id)
      ensures Within(old(View()), View(), Sizes(0, 32, NameCost(kids)))
      ensures Seated(View(), p) && View().starts[p.id] == |old(View()).inodeLog|
    {
      hide Valid, Floor, Table, MetaWriter.Valid, RefAt, DirRecord, Extends, EncodeListing, SortByName, AllSeated,
           EntriesOf, RefBlock, RefOffset;
      ghost var w0 := View();
      var sorted := SortByName(entries);
      var at := dirs.Ref();
      var listing := BuildDirListing(sorted);
      ListingSize(st, w0, kids, ps);
      AddListingOk(st, w0, listing);
      dirs.Write(listing);
      ghost var w1 := View();
      num := NextInode();
      ref := inodes.Ref();
      var record := DirRecord(perm, num, RefBlock(at), |entries|, |listing|, RefOffset(at));
      AddInodeOk(st, w1, record);
      WriteInode(record, num);
      ghost var w2 := View();
      p := PDir(|w1.starts|, |w0.dirLog|, ps);
      ExtendsTransitive(w0, w1, w2);
      ListingKept(st, w0, w2, kids, ps);
      RefStable(st, w0.dirLog, w2.dirLog, |w0.dirLog|);
      RefStable(st, w1.inodeLog, w2.inodeLog, |w1.inodeLog|);
    }

    /** emitNode: post-order, children before their directory. */
    method EmitNode(n: Node) returns (ref: nat, num: nat, ghost p: Placed)
      requires Good()
      modifies this, inodes, dirs
      ensures Good() && Extends(old(View()), View())
      ensures Stored(frags, st, View(), n, p) && Seated(View(), p)
      ensures ref == RefOf(st, View(), p) && num == Number(p.id)
      ensures Within(old(View()), View(), SizeOf(frags, n))
      ensures Positioned(frags, View(), n, p, |old(View()).inodeLog|, |old(View()).data| + |old(View()).fragBuf|)
      decreases n
    {
      hide ImageWriter.Good, RefOf, Extends, Stored, StoredFile, StoredLink, StoredDir, Positioned, KidsPositioned,
           Within, SizeOf, SizeOfKids, EntriesOf, AllSeated, Seated;
      ghost var w0 := View();
      match n
      case File(perm, bytes) =>
        ref, num, p := EmitFile(perm, bytes);
        LeafStored(frags, st, View(), n, p, |w0.inodeLog|, |w0.data|, |w0.data| + |w0.fragBuf|);
      case Link(perm, target) =>
        ref, num, p := EmitLink(perm, target);
        LeafStored(frags, st, View(), n, p, |w0.inodeLog|, |w0.data|, |w0.data| + |w0.fragBuf|);
      case Dir(perm, kids) =>
        ghost var ps: seq<Placed>;
        var entries: seq<DirEntry>;
        entries, ps := EmitKids(kids);
        ghost var w1 := View();
        ref, num, p := EmitDir(perm, kids, entries, ps);
        DirStored(frags, st, w0, w1, View(), n, p);
    }

    /** The loop over a directory's children. */
    method EmitKids(kids: seq<Kid>) returns (entries: seq<DirEntry>, ghost ps: seq<Placed>)
      requires Good()
      modifies this, inodes, dirs
      ensures Good() && Extends(old(View()), View())
      ensures |ps| == |kids| && AllSeated(View(), ps)
      ensures entries == EntriesOf(st, View(), kids, ps)
      ensures forall i :: 0 <= i < |kids| ==> Stored(frags, st, View(), kids[i].node, ps[i])
      ensures Within(old(View()), View(), SizeOfKids(frags, kids))
      ensures KidsPositioned(frags, View(), kids, ps, |old(View()).inodeLog|,
                             |old(View()).data| + |old(View()).fragBuf|)
      decreases kids
    {
      hide ImageWriter.Good, RefOf, Extends, Stored, SizeOf, KidsStored, KidsPositioned, Positioned, EntriesOf,
           AllSeated, Seated, Within, SizeOfKids;
      ghost var w0 := View();
      entries, ps := [], [];
      NoKids(frags, st, w0);
      NoneToPlace(frags, w0, |w0.inodeLog|, |w0.data| + |w0.fragBuf|);
      assert kids[..0] == [];
      ExtendsItself(w0);
      for i := 0 to |kids|
        invariant Good() && Extends(w0, View())
        invariant KidsStored(frags, st, View(), kids[..i], ps, entries)
        invariant Within(w0, View(), SizeOfKids(frags, kids[..i]))
        invariant KidsPositioned(frags, View(), kids[..i], ps, |w0.inodeLog|, |w0.data| + |w0.fragBuf|)
      {
        ghost var w := View();
        ghost var p: Placed;
        var ref, num;
        ref, num, p := EmitNode(kids[i].node);
        KidsKept(frags, st, w, View(), kids[..i], ps, entries);
        ExtendsTransitive(w0, w, View());
        KidWithin(frags, w0, w, View(), kids, i);
        KidAdded(frags, st, View(), kids[..i], ps, entries, kids[i], p);
        KidPositioned(frags, w, View(), kids[..i], ps, kids[i], p, |w0.inodeLog|, |w0.data| + |w0.fragBuf|,
                      |w.inodeLog|, |w.data| + |w.fragBuf|);
        assert kids[..i + 1] == kids[..i] + [kids[i]];
        entries := entries + [DirEntry(kids[i].name, ref, num, KindCode(kids[i].node))];
        ps := ps + [p];
      }
      assert kids[..|kids|] == kids;
      KidsEntries(frags, st, View(), kids, ps, entries);
    }
  }

  /** The children so far are stored, and `entries` is what their directory will list. */
  ghost predicate KidsStored(frags: bool, st: Storage, w: Snapshot, kids: seq<Kid>, ps: seq<Placed>,
                             entries: seq<DirEntry>) {
    |ps| == |entries| == |kids| &&
    forall j :: 0 <= j < |kids| ==>
      && Seated(w, ps[j]) && entries[j] == EntryOf(st, w, kids[j], ps[j])
      && Stored(frags, st, w, kids[j].node, ps[j])
  }

  lemma NoKids(frags: bool, st: Storage, w: Snapshot)
    ensures KidsStored(frags, st, w, [], [], [])
  {
  }

  lemma KidsKept(frags: bool, st: Storage, w: Snapshot, w': Snapshot, kids: seq<Kid>, ps: seq<Placed>,
                 entries: seq<DirEntry>)
    requires KidsStored(frags, st, w, kids, ps, entries) && Extends(w, w')
    ensures KidsStored(frags, st, w', kids, ps, entries)
  {
    hide RefOf, Extends, Stored;
    forall j | 0 <= j < |kids|
      ensures Seated(w', ps[j]) && entries[j] == EntryOf(st, w', kids[j], ps[j])
      ensures Stored(frags, st, w', kids[j].node, ps[j])
    {
      SeatedKept(st, w, w', ps[j]);
      StoredKept(frags, st, w, w', kids[j].node, ps[j]);
    }
  }

  lemma KidAdded(frags: bool, st: Storage, w: Snapshot, kids: seq<Kid>, ps: seq<Placed>, entries: seq<DirEntry>,
                 kid: Kid, p: Placed)
    requires KidsStored(frags, st, w, kids, ps, entries) && Seated(w, p) && Stored(frags, st, w, kid.node, p)
    ensures KidsStored(frags, st, w, kids + [kid], ps + [p], entries + [EntryOf(st, w, kid, p)])
  {
    hide RefOf, Stored;
  }

  lemma KidsEntries(frags: bool, st: Storage, w: Snapshot, kids: seq<Kid>, ps: seq<Placed>, entries: seq<DirEntry>)
    requires KidsStored(frags, st, w, kids, ps, entries)
    ensures |ps| == |kids| && AllSeated(w, ps) && entries == EntriesOf(st, w, kids, ps)
    ensures forall i :: 0 <= i < |kids| ==> Stored(frags, st, w, kids[i].node, ps[i])
  {
    hide RefOf, Stored;
  }

  /** The children so far stand where the tree puts them. */
  ghost predicate KidsPositioned(frags: bool, w: Snapshot, kids: seq<Kid>, ps: seq<Placed>, base: nat, before: nat) {
    |ps| == |kids| &&
    forall j :: 0 <= j < |kids| ==>
      Positioned(frags, w, kids[j].node, ps[j], KidBase(frags, kids, j, base),
                 before + SizeOfKids(frags, kids[..j]).data)
  }

  lemma KidWithin(frags: bool, w0: Snapshot, w: Snapshot, w': Snapshot, kids: seq<Kid>, i: nat)
    requires i < |kids|
    requires Within(w0, w, SizeOfKids(frags, kids[..i])) && Within(w, w', SizeOf(frags, kids[i].node))
    ensures Within(w0, w', SizeOfKids(frags, kids[..i + 1]))
    ensures |w.inodeLog| == |w0.inodeLog| + SizeOfKids(frags, kids[..i]).inodes
    ensures |w.data| + |w.fragBuf| <= |w0.data| + |w0.fragBuf| + SizeOfKids(frags, kids[..i]).data
  {
    hide Pieces;
    assert kids[..i + 1][..i] == kids[..i];
  }

  lemma NoneToPlace(frags: bool, w: Snapshot, base: nat, before: nat)
    ensures KidsPositioned(frags, w, [], [], base, before) && Within(w, w, SizeOfKids(frags, []))
  {
  }

  lemma KidPositioned(frags: bool, w: Snapshot, w': Snapshot, kids: seq<Kid>, ps: seq<Placed>, kid: Kid, p: Placed,
                      base: nat, before: nat, at: nat, sofar: nat)
    requires KidsPositioned(frags, w, kids, ps, base, before) && Extends(w, w')
    requires Positioned(frags, w', kid.node, p, at, sofar)
    requires at == base + SizeOfKids(frags, kids).inodes && sofar <= before + SizeOfKids(frags, kids).data
    ensures KidsPositioned(frags, w', kids + [kid], ps + [p], base, before)
  {
    hide Positioned, Extends, SizeOfKids;
    var kids', ps' := kids + [kid], ps + [p];
    forall j | 0 <= j < |kids'|
      ensures Positioned(frags, w', kids'[j].node, ps'[j], KidBase(frags, kids', j, base),
                         before + SizeOfKids(frags, kids'[..j]).data)
    {
      if j < |kids| {
        assert kids'[..j] == kids[..j];
        var d := SizeOfKids(frags, kids[..j]).data;
        PositionedKept(frags, w, w', kids[j].node, ps[j], KidBase(frags, kids, j, base), before + d, before + d);
      } else {
        assert kids'[..j] == kids;
        ExtendsItself(w');
        PositionedKept(frags, w', w', kid.node, p, at, sofar, before + SizeOfKids(frags, kids).data);
      }
    }
  }

  lemma DirPositioned(frags: bool, w: Snapshot, w': Snapshot, n: Node, p: Placed, base: nat, before: nat)
    requires n.Dir? && p.PDir? && KidsPositioned(frags, w, n.kids, p.kids, base, before) && Extends(w, w')
    requires Seated(w', p) && w'.starts[p.id] == base + SizeOfKids(frags, n.kids).inodes
    ensures Positioned(frags, w', n, p, base, before)
  {
    hide Extends, SizeOfKids, NameCost;
    forall j | 0 <= j < |n.kids|
      ensures Positioned(frags, w', n.kids[j].node, p.kids[j], KidBase(frags, n.kids, j, base),
                         before + SizeOfKids(frags, n.kids[..j]).data)
    {
      var d := SizeOfKids(frags, n.kids[..j]).data;
      PositionedKept(frags, w, w', n.kids[j].node, p.kids[j], KidBase(frags, n.kids, j, base), before + d, before + d);
    }
  }

  /** A file or a link, once written, is in its place. */
  lemma LeafStored(frags: bool, st: Storage, w: Snapshot, n: Node, p: Placed, base: nat, before: nat, before': nat)
    requires n.File? ==> StoredFile(frags, st, w, n.perm, n.data, p)
    requires n.Link? ==> StoredLink(w, n.perm, n.target, p)
    requires !n.Dir? && Positioned(frags, w, n, p, base, before) && before <= before'
    ensures Stored(frags, st, w, n, p) && Seated(w, p) && Positioned(frags, w, n, p, base, before')
  {
    hide StoredFile, StoredLink, Extends, Positioned;
    StoredIsSeated(frags, st, w, n, p);
    ExtendsItself(w);
    PositionedKept(frags, w, w, n, p, base, before, before');
  }

  /** A directory, once its children, its listing and its inode are written, is in its place. */
  lemma DirStored(frags: bool, st: Storage, w0: Snapshot, w1: Snapshot, w2: Snapshot, n: Node, p: Placed)
    requires n.Dir? && StoredDir(st, w2, n.perm, n.kids, p) && |p.kids| == |n.kids|
    requires Extends(w0, w1) && Extends(w1, w2)
    requires forall i :: 0 <= i < |n.kids| ==> Stored(frags, st, w1, n.kids[i].node, p.kids[i])
    requires KidsPositioned(frags, w1, n.kids, p.kids, |w0.inodeLog|, |w0.data| + |w0.fragBuf|)
    requires Within(w0, w1, SizeOfKids(frags, n.kids)) && Within(w1, w2, Sizes(0, 32, NameCost(n.kids)))
    requires Seated(w2, p) && w2.starts[p.id] == |w1.inodeLog|
    ensures Extends(w0, w2) && Stored(frags, st, w2, n, p) && Within(w0, w2, SizeOf(frags, n))
    ensures Positioned(frags, w2, n, p, |w0.inodeLog|, |w0.data| + |w0.fragBuf|)
  {
    hide StoredDir, Extends, Positioned, KidsPositioned, Pieces, SizeOfKids, NameCost;
    ExtendsTransitive(w0, w1, w2);
    StoredDirKids(st, w2, n.perm, n.kids, p);
    forall i | 0 <= i < |n.kids|
      ensures Stored(frags, st, w2, n.kids[i].node, p.kids[i])
    {
      StoredKept(frags, st, w1, w2, n.kids[i].node, p.kids[i]);
    }
    DirPositioned(frags, w1, w2, n, p, |w0.inodeLog|, |w0.data| + |w0.fragBuf|);
  }

  lemma ValidBuffer(st: Storage, w: Snapshot)
    requires Valid(st, w)
    ensures |w.fragBuf| <= BLOCK_SIZE
  {
  }

  lemma NoBlocks(st: Storage, w: Snapshot, start: nat)
    ensures FileBlocks(st, w, start, [], []) && Extends(w, w) && DiskBytes([]) == 0
  {
  }

  lemma ExtendsItself(w: Snapshot)
    ensures Extends(w, w)
  {
  }

  lemma DataGrew(w: Snapshot, w': Snapshot)
    requires Extends(w, w')
    ensures |w.data| <= |w'.data|
  {
  }

  lemma RoundedUp(len: nat, count: nat)
    requires len <= count * BLOCK_SIZE < len + BLOCK_SIZE
    ensures count == (len + BLOCK_SIZE - 1) / BLOCK_SIZE
  {
  }

  /** The growth of a run over one file. */
  lemma FileGrew(frags: bool, w0: Snapshot, w2: Snapshot, w3: Snapshot, perm: nat, bytes: seq<Byte>, p: Placed,
                 record: seq<Byte>)
    requires |w2.data| + |w2.fragBuf| <= |w0.data| + |w0.fragBuf| + |bytes| && Pieces(w2) <= Pieces(w0) + 1
    requires w2.inodeLog == w0.inodeLog && w2.dirLog == w0.dirLog && w2.starts == w0.starts
    requires |record| == 32 + 4 * WordCount(frags, bytes) && w3 == AddInode(w2, record)
    requires p.PFile? && p.id == |w2.starts| && p.start == |w0.data| && |p.words| == WordCount(frags, bytes)
    ensures Within(w0, w3, SizeOf(frags, File(perm, bytes)))
    ensures Positioned(frags, w3, File(perm, bytes), p, |w0.inodeLog|, |w0.data|)
  {
    hide WordCount;
  }

  lemma FullWords(frags: bool, bytes: seq<Byte>)
    ensures (FullLen(frags, bytes) + BLOCK_SIZE - 1) / BLOCK_SIZE == WordCount(frags, bytes)
  {
  }

  lemma AddTailSize(st: Storage, w: Snapshot, tail: seq<Byte>)
    ensures var w' := AddTail(st, w, tail);
            && |w'.data| + |w'.fragBuf| <= |w.data| + |w.fragBuf| + |tail| && Pieces(w') <= Pieces(w) + 1
            && w'.inodeLog == w.inodeLog && w'.dirLog == w.dirLog && w'.starts == w.starts
  {
  }

  // ----- The size of a listing -----

  function EntryCost(es: seq<DirEntry>): nat {
    if es == [] then 0 else 20 + |es[0].name| + EntryCost(es[1..])
  }

  lemma {:induction false} InsertCost(e: DirEntry, es: seq<DirEntry>)
    ensures EntryCost(InsertByName(e, es)) == 20 + |e.name| + EntryCost(es)
    decreases |es|
  {
    hide NameLe;
    if es == [] || NameLe(e.name, es[0].name) {
      assert ([e] + es)[1..] == es;
    } else {
      InsertCost(e, es[1..]);
      var rest := InsertByName(e, es[1..]);
      assert ([es[0]] + rest)[1..] == rest;
    }
  }

  lemma {:induction false} SortCost(es: seq<DirEntry>)
    ensures EntryCost(SortByName(es)) == EntryCost(es)
    decreases |es|
  {
    if es != [] {
      SortCost(es[1..]);
      InsertCost(es[0], SortByName(es[1..]));
    }
  }

  lemma {:induction false} CostAppend(a: seq<DirEntry>, b: seq<DirEntry>)
    ensures EntryCost(a + b) == EntryCost(a) + EntryCost(b)
    decreases |a|
  {
    if a == [] {
      assert a + b == b;
    } else {
      assert (a + b)[1..] == a[1..] + b;
      CostAppend(a[1..], b);
    }
  }

  lemma {:induction false} EntriesCost(es: seq<DirEntry>, base: nat)
    ensures |EncodeEntries(es, base)| + 12 * |es| == EntryCost(es)
    decreases |es|
  {
    hide EncodeFixed;
    if es != [] {
      EntriesCost(es[1..], base);
    }
  }

  /** However the entries fall into groups, a header each is the most a listing takes. */
  lemma {:induction false} ListingCost(es: seq<DirEntry>)
    ensures |EncodeListing(es)| <= EntryCost(es)
    decreases |es|
  {
    hide EncodeEntries, EncodeHeader, GroupLen, EntryCost;
    if es == [] {
      NoCost();
    } else {
      var g := GroupLen(es);
      EntriesCost(es[..g], es[0].num);
      ListingCost(es[g..]);
      assert es == es[..g] + es[g..];
      CostAppend(es[..g], es[g..]);
    }
  }

  lemma NoCost()
    ensures EntryCost([]) == 0
  {
  }

  lemma {:induction false} NamesCost(es: seq<DirEntry>, kids: seq<Kid>)
    requires |es| == |kids| && forall i :: 0 <= i < |es| ==> es[i].name == kids[i].name
    ensures EntryCost(es) == NameCost(kids)
    decreases |es|
  {
    if es != [] {
      var last := |es| - 1;
      NamesCost(es[..last], kids[..last]);
      assert es == es[..last] + [es[last]];
      CostAppend(es[..last], [es[last]]);
    }
  }

  lemma ListingSize(st: Storage, w: Snapshot, kids: seq<Kid>, ps: seq<Placed>)
    requires |kids| == |ps| && AllSeated(w, ps)
    ensures |ListingOf(st, w, kids, ps)| <= NameCost(kids)
  {
    hide EncodeListing, SortByName, EntryCost, NameCost, RefOf;
    var es := EntriesOf(st, w, kids, ps);
    SortCost(es);
    ListingCost(SortByName(es));
    NamesCost(es, kids);
  }
}
