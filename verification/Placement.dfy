/** Where the writer put each node of a tree, and that it stays there. */
module Placement {
  import opened Bytes
  import opened Codecs
  import opened Metadata
  import opened Inodes
  import opened Directory
  import opened DirectoryRoundTrip
  import opened Tree
  import opened Positions
  import opened Layout
  import opened Records

  /** What emitNode fixed for a node. `id` counts inodes from 0, so the inode number is id + 1
      in 32 bits and the inode record starts at starts[id]. */
  datatype Placed =
    | PFile(id: nat, start: nat, words: seq<nat>, fragIdx: nat, fragOff: nat)
    | PLink(id: nat)
    | PDir(id: nat, dirPos: nat, kids: seq<Placed>)

  /** nextInode, with the wrap-around of its uint32. */
  function Number(id: nat): (n: nat)
    ensures n < TWO_32
  {
    (id + 1) % TWO_32
  }

  /** Inodes are numbered from 1 on in the order in which they are written. */
  lemma NumbersFromOne(id: nat)
    ensures id + 1 < 0x1_0000_0000 ==> Number(id) == id + 1
    ensures Number(id + 0x1_0000_0000) == Number(id)
  {
  }

  predicate Seated(w: Snapshot, p: Placed) {
    p.id < |w.starts| && w.starts[p.id] < |w.inodeLog|
  }

  predicate AllSeated(w: Snapshot, ps: seq<Placed>) {
    forall i :: 0 <= i < |ps| ==> Seated(w, ps[i])
  }

  /** inodeRef of a placed node. */
  function RefOf(st: Storage, w: Snapshot, p: Placed): nat
    requires Seated(w, p)
  {
    RefAt(st, w.inodeLog, w.starts[p.id])
  }

  function EntryOf(st: Storage, w: Snapshot, kid: Kid, p: Placed): DirEntry
    requires Seated(w, p)
  {
    DirEntry(kid.name, RefOf(st, w, p), Number(p.id), KindCode(kid.node))
  }

  function EntriesOf(st: Storage, w: Snapshot, kids: seq<Kid>, ps: seq<Placed>): (es: seq<DirEntry>)
    requires |kids| == |ps| && AllSeated(w, ps)
    ensures |es| == |kids| && forall i :: 0 <= i < |kids| ==> es[i] == EntryOf(st, w, kids[i], ps[i])
  {
    seq(|kids|, i requires 0 <= i < |kids| => EntryOf(st, w, kids[i], ps[i]))
  }

  function ListingOf(st: Storage, w: Snapshot, kids: seq<Kid>, ps: seq<Placed>): seq<Byte>
    requires |kids| == |ps| && AllSeated(w, ps)
  {
    EncodeListing(SortByName(EntriesOf(st, w, kids, ps)))
  }

  /** The bytes stored as data blocks: the full blocks, or everything without fragments. */
  function FullLen(frags: bool, data: seq<Byte>): (n: nat)
    ensures n <= |data|
    ensures frags ==> n % BLOCK_SIZE == 0 && |data| - n < BLOCK_SIZE
    ensures !frags ==> n == |data|
  {
    if frags then |data| / BLOCK_SIZE * BLOCK_SIZE else |data|
  }

  ghost predicate StoredFile(frags: bool, st: Storage, w: Snapshot, perm: nat, data: seq<Byte>, p: Placed) {
    && p.PFile? && Seated(w, p)
    && var full := FullLen(frags, data);
       && FileBlocks(st, w, p.start, p.words, data[..full])
       && p.start <= |w.data|
       && (full < |data| ==> FragHolds(w, p.fragIdx, p.fragOff, data[full..]))
       && (full == |data| ==> p.fragIdx == INVALID_FRAG && p.fragOff == 0)
       && Holds(w.inodeLog, w.starts[p.id],
                FileRecord(perm, Number(p.id), p.start, p.fragIdx, p.fragOff, |data|, p.words))
  }

  ghost predicate StoredLink(w: Snapshot, perm: nat, target: seq<Byte>, p: Placed) {
    p.PLink? && Seated(w, p) && Holds(w.inodeLog, w.starts[p.id], LinkRecord(perm, Number(p.id), target))
  }

  ghost predicate StoredDir(st: Storage, w: Snapshot, perm: nat, kids: seq<Kid>, p: Placed) {
    && p.PDir? && Seated(w, p) && |p.kids| == |kids| && AllSeated(w, p.kids) && p.dirPos <= |w.dirLog|
    && var listing := ListingOf(st, w, kids, p.kids);
       var at := RefAt(st, w.dirLog, p.dirPos);
       && Holds(w.dirLog, p.dirPos, listing)
       && Holds(w.inodeLog, w.starts[p.id],
                DirRecord(perm, Number(p.id), RefBlock(at), |kids|, |listing|, RefOffset(at)))
  }

  /** A node and everything below it has been written. */
  ghost predicate Stored(frags: bool, st: Storage, w: Snapshot, n: Node, p: Placed)
    decreases n
  {
    match n
    case File(perm, data) => StoredFile(frags, st, w, perm, data, p)
    case Link(perm, target) => StoredLink(w, perm, target, p)
    case Dir(perm, kids) =>
      && StoredDir(st, w, perm, kids, p)
      && forall i :: 0 <= i < |kids| ==> Stored(frags, st, w, kids[i].node, p.kids[i])
  }

  lemma StoredIsSeated(frags: bool, st: Storage, w: Snapshot, n: Node, p: Placed)
    requires Stored(frags, st, w, n, p)
    ensures Seated(w, p)
  {
  }

  // ----- Later writes change nothing -----

  lemma SeatedKept(st: Storage, w: Snapshot, w': Snapshot, p: Placed)
    requires Seated(w, p) && Extends(w, w')
    ensures Seated(w', p) && w'.starts[p.id] == w.starts[p.id] && RefOf(st, w', p) == RefOf(st, w, p)
  {
    hide RefAt, FragBlock;
    RefStable(st, w.inodeLog, w'.inodeLog, w.starts[p.id]);
  }

  lemma ListingKept(st: Storage, w: Snapshot, w': Snapshot, kids: seq<Kid>, ps: seq<Placed>)
    requires |kids| == |ps| && AllSeated(w, ps) && Extends(w, w')
    ensures AllSeated(w', ps) && EntriesOf(st, w', kids, ps) == EntriesOf(st, w, kids, ps)
    ensures ListingOf(st, w', kids, ps) == ListingOf(st, w, kids, ps)
  {
    hide RefOf, Extends, SortByName, EncodeListing, Number, KindCode;
    forall i | 0 <= i < |ps|
      ensures Seated(w', ps[i]) && EntryOf(st, w', kids[i], ps[i]) == EntryOf(st, w, kids[i], ps[i])
    {
      SeatedKept(st, w, w', ps[i]);
    }
  }

  /** A file is stored once its record is: its blocks and its tail were written before. */
  lemma FileRecorded(frags: bool, st: Storage, w1: Snapshot, w2: Snapshot, w3: Snapshot, perm: nat, data: seq<Byte>,
                     p: Placed)
    requires Extends(w1, w2) && Extends(w2, w3) && p.PFile? && Seated(w3, p) && p.start <= |w1.data|
    requires FileBlocks(st, w1, p.start, p.words, data[..FullLen(frags, data)])
    requires FullLen(frags, data) < |data| ==> FragHolds(w2, p.fragIdx, p.fragOff, data[FullLen(frags, data)..])
    requires FullLen(frags, data) == |data| ==> p.fragIdx == INVALID_FRAG && p.fragOff == 0
    requires Holds(w3.inodeLog, w3.starts[p.id],
                   FileRecord(perm, Number(p.id), p.start, p.fragIdx, p.fragOff, |data|, p.words))
    ensures StoredFile(frags, st, w3, perm, data, p)
  {
    hide FragHolds, FragBlock, FileBlocks, FileRecord, Number, FullLen, Holds;
    var full := FullLen(frags, data);
    ExtendsTransitive(w1, w2, w3);
    FileBlocksKept(st, w1, w3, p.start, p.words, data[..full]);
    if full < |data| {
      FragPromiseKept(w2, w3, p.fragIdx, p.fragOff, data[full..]);
    }
  }

  lemma StoredFileKept(frags: bool, st: Storage, w: Snapshot, w': Snapshot, perm: nat, data: seq<Byte>, p: Placed)
    requires StoredFile(frags, st, w, perm, data, p) && Extends(w, w')
    ensures StoredFile(frags, st, w', perm, data, p)
  {
    hide RefOf, FragHolds, FragBlock, FileBlocks, FileRecord, Number, FullLen;
    var full := FullLen(frags, data);
    SeatedKept(st, w, w', p);
    FileBlocksKept(st, w, w', p.start, p.words, data[..full]);
    if full < |data| {
      FragPromiseKept(w, w', p.fragIdx, p.fragOff, data[full..]);
    }
    HoldsGrows(w.inodeLog, w'.inodeLog, w.starts[p.id],
               FileRecord(perm, Number(p.id), p.start, p.fragIdx, p.fragOff, |data|, p.words));
  }

  lemma StoredDirKept(st: Storage, w: Snapshot, w': Snapshot, perm: nat, kids: seq<Kid>, p: Placed)
    requires StoredDir(st, w, perm, kids, p) && Extends(w, w')
    ensures StoredDir(st, w', perm, kids, p)
  {
    hide RefOf, FragBlock, ListingOf, DirRecord, Number, RefAt, AllSeated, EntriesOf, RefBlock, RefOffset;
    SeatedKept(st, w, w', p);
    ListingKept(st, w, w', kids, p.kids);
    RefStable(st, w.dirLog, w'.dirLog, p.dirPos);
    HoldsGrows(w.dirLog, w'.dirLog, p.dirPos, ListingOf(st, w, kids, p.kids));
    var at := RefAt(st, w.dirLog, p.dirPos);
    HoldsGrows(w.inodeLog, w'.inodeLog, w.starts[p.id],
               DirRecord(perm, Number(p.id), RefBlock(at), |kids|, |ListingOf(st, w, kids, p.kids)|, RefOffset(at)));
  }

  /** Everything a run has written of a subtree, references, listings, blocks and fragments,
      holds at every later moment of the run. */
  lemma {:induction false} StoredKept(frags: bool, st: Storage, w: Snapshot, w': Snapshot, n: Node, p: Placed)
    requires Stored(frags, st, w, n, p) && Extends(w, w')
    ensures Stored(frags, st, w', n, p)
    decreases n
  {
    hide StoredFile, StoredDir, Extends, RefOf, Header;
    match n
    case File(perm, data) =>
      StoredFileKept(frags, st, w, w', perm, data, p);
    case Link(perm, target) =>
      SeatedKept(st, w, w', p);
      ExtendsInodes(w, w');
      HoldsGrows(w.inodeLog, w'.inodeLog, w.starts[p.id], LinkRecord(perm, Number(p.id), target));
    case Dir(perm, kids) =>
      StoredDirKept(st, w, w', perm, kids, p);
      StoredDirKids(st, w, perm, kids, p);
      forall i | 0 <= i < |kids|
        ensures Stored(frags, st, w', kids[i].node, p.kids[i])
      {
        StoredKept(frags, st, w, w', kids[i].node, p.kids[i]);
      }
  }

  lemma StoredDirKids(st: Storage, w: Snapshot, perm: nat, kids: seq<Kid>, p: Placed)
    requires StoredDir(st, w, perm, kids, p)
    ensures p.PDir? && |p.kids| == |kids|
  {
  }

  lemma ExtendsInodes(w: Snapshot, w': Snapshot)
    requires Extends(w, w')
    ensures w.inodeLog <= w'.inodeLog
  {
  }

  // ----- Inode numbers in one metadata block -----

  /** Inodes that start in one metadata block have numbers at most 341 apart. */
  lemma NumbersInOneBlock(starts: seq<nat>, end: nat, i: nat, j: nat)
    requires Spaced(starts, end) && i < |starts| && j < |starts| && Floor(starts[i]) == Floor(starts[j])
    ensures -341 <= j - i <= 341
    ensures Near(Number(i), Number(j))
  {
    var f := Floor(starts[i]);
    assert f <= starts[i] < f + META_MAX && f <= starts[j] < f + META_MAX;
    if i < j {
      assert starts[i] + 24 * (j - i) <= starts[j];
    } else if j < i {
      assert starts[j] + 24 * (i - j) <= starts[i];
    }
    assert -341 <= j - i <= 341;
    NumbersNear(i, j);
  }

  lemma NumbersNear(i: nat, j: nat)
    requires -341 <= j - i <= 341
    ensures Near(Number(i), Number(j))
  {
    var a, b := (i + 1) / TWO_32, (j + 1) / TWO_32;
    assert i + 1 == a * TWO_32 + Number(i) && j + 1 == b * TWO_32 + Number(j);
    assert b == a - 1 || b == a || b == a + 1;
  }

  // ----- What the fixed-width fields ask of a run -----

  /** The node's inode starts in a block that a 64-bit reference can name. */
  ghost predicate RefFits(st: Storage, w: Snapshot, p: Placed) {
    Seated(w, p) && BlockStart(st, w.inodeLog, w.starts[p.id]) < TWO_48
  }

  /** ... and that the 32-bit field of a listing header can name. */
  ghost predicate EntryFits(st: Storage, w: Snapshot, p: Placed) {
    Seated(w, p) && BlockStart(st, w.inodeLog, w.starts[p.id]) < TWO_32
  }

  /** The listing starts in a block that a directory inode can name. */
  ghost predicate ListingInRange(st: Storage, w: Snapshot, p: Placed) {
    p.PDir? && p.dirPos <= |w.dirLog| && BlockStart(st, w.dirLog, p.dirPos) < TWO_32
  }

  /** Below n nothing outgrew a 32-bit field that is used: the start of a file that has data
      blocks, the block of a listing that has entries, the inode blocks the entries name. */
  ghost predicate InRange(st: Storage, w: Snapshot, n: Node, p: Placed)
    decreases n
  {
    match n
    case File(_, _) => p.PFile? && (p.words == [] || p.start < TWO_32)
    case Link(_, _) => true
    case Dir(_, kids) =>
      && p.PDir? && |p.kids| == |kids|
      && (kids != [] ==> ListingInRange(st, w, p))
      && forall i :: 0 <= i < |kids| ==> EntryFits(st, w, p.kids[i]) && InRange(st, w, kids[i].node, p.kids[i])
  }

  lemma EntryBlock(st: Storage, w: Snapshot, kid: Kid, p: Placed)
    requires EntryFits(st, w, p)
    ensures Block32(EntryOf(st, w, kid, p)) == BlockStart(st, w.inodeLog, w.starts[p.id])
    ensures EntryOf(st, w, kid, p).ref < TWO_16 * TWO_32
  {
    hide BlockStart, Floor, Table;
    RefParts(st, w.inodeLog, w.starts[p.id]);
  }

  /** The reference a reader rebuilds from an entry is the inode's own exactly when the header's
      32-bit field can name the block. */
  lemma EntryFitsIff(st: Storage, w: Snapshot, kid: Kid, p: Placed)
    requires RefFits(st, w, p)
    ensures var e := EntryOf(st, w, kid, p);
            Block32(e) * TWO_16 + e.ref % TWO_16 == RefOf(st, w, p) <==> EntryFits(st, w, p)
  {
    hide BlockStart, Floor, RefAt;
    RefParts(st, w.inodeLog, w.starts[p.id]);
  }

  /** Whatever the tree and the order of the children, the int16 deltas of a listing lose no
      inode number. */
  lemma ListingsAreListable(st: Storage, w: Snapshot, kids: seq<Kid>, ps: seq<Placed>)
    requires Valid(st, w) && |kids| == |ps| && AllSeated(w, ps)
    requires forall i :: 0 <= i < |kids| ==> EntryFits(st, w, ps[i]) && 1 <= |kids[i].name| <= TWO_16
    ensures Listable(EntriesOf(st, w, kids, ps))
    ensures Listable(SortByName(EntriesOf(st, w, kids, ps)))
  {
    hide Valid, BlockStart, Table, Block32, RefAt, Floor, Near, SortByName, Number, KindCode, RefOf;
    var es := EntriesOf(st, w, kids, ps);
    forall i | 0 <= i < |es|
      ensures EntryOk(es[i])
    {
      EntryBlock(st, w, kids[i], ps[i]);
    }
    forall i, j | 0 <= i < |es| && 0 <= j < |es| && Block32(es[i]) == Block32(es[j])
      ensures Near(es[i].num, es[j].num)
    {
      EntryBlock(st, w, kids[i], ps[i]);
      EntryBlock(st, w, kids[j], ps[j]);
      SameBlock(st, w.inodeLog, w.starts[ps[i].id], w.starts[ps[j].id]);
      ValidSpacing(st, w);
      NumbersInOneBlock(w.starts, |w.inodeLog|, ps[i].id, ps[j].id);
    }
    SameElements(SortByName(es), es);
    ListableByElements(es, SortByName(es));
  }

  lemma ValidSpacing(st: Storage, w: Snapshot)
    requires Valid(st, w)
    ensures Spaced(w.starts, |w.inodeLog|)
  {
  }

  lemma ListableByElements(es: seq<DirEntry>, sorted: seq<DirEntry>)
    requires Listable(es) && forall x :: x in sorted ==> x in es
    ensures Listable(sorted)
  {
    hide Near, Block32, EntryOk;
    forall i, j | 0 <= i < |sorted| && 0 <= j < |sorted| && Block32(sorted[i]) == Block32(sorted[j])
      ensures Near(sorted[i].num, sorted[j].num)
    {
      assert sorted[i] in es && sorted[j] in es;
    }
    forall i | 0 <= i < |sorted|
      ensures EntryOk(sorted[i])
    {
      assert sorted[i] in es;
    }
  }

  // ----- The run follows the positions of the tree -----

  /** n was emitted from position `base` of the inode table on, after at most `before` bytes of
      data: every inode stands where the tree puts it, no file starts later than it should. */
  ghost predicate Positioned(frags: bool, w: Snapshot, n: Node, p: Placed, base: nat, before: nat)
    decreases n
  {
    && Seated(w, p) && w.starts[p.id] == InodeStart(frags, n, base)
    && match n
       case File(_, data) => p.PFile? && p.start <= before && |p.words| == WordCount(frags, data)
       case Link(_, _) => true
       case Dir(_, kids) =>
         && p.PDir? && |p.kids| == |kids|
         && forall i :: 0 <= i < |kids| ==>
              Positioned(frags, w, kids[i].node, p.kids[i], KidBase(frags, kids, i, base),
                         before + SizeOfKids(frags, kids[..i]).data)
  }

  lemma {:induction false} PositionedKept(frags: bool, w: Snapshot, w': Snapshot, n: Node, p: Placed,
                                          base: nat, before: nat, before': nat)
    requires Positioned(frags, w, n, p, base, before) && Extends(w, w') && before <= before'
    ensures Positioned(frags, w', n, p, base, before')
    decreases n
  {
    hide FragBlock, InodeStart, KidBase, SizeOfKids, WordCount;
    if n.Dir? {
      forall i | 0 <= i < |n.kids|
        ensures Positioned(frags, w', n.kids[i].node, p.kids[i], KidBase(frags, n.kids, i, base),
                           before' + SizeOfKids(frags, n.kids[..i]).data)
      {
        var d := SizeOfKids(frags, n.kids[..i]).data;
        PositionedKept(frags, w, w', n.kids[i].node, p.kids[i], KidBase(frags, n.kids, i, base), before + d,
                       before' + d);
      }
    }
  }

  /** An entry's position in the inode table where its reference will stand. */
  function SpotOf(w: Snapshot, kid: Kid, p: Placed): DirEntry
    requires Seated(w, p)
  {
    DirEntry(kid.name, w.starts[p.id], Number(p.id), KindCode(kid.node))
  }

  function SpotsOf(w: Snapshot, kids: seq<Kid>, ps: seq<Placed>): (es: seq<DirEntry>)
    requires |kids| == |ps| && AllSeated(w, ps)
    ensures |es| == |kids| && forall i :: 0 <= i < |kids| ==> es[i] == SpotOf(w, kids[i], ps[i])
  {
    seq(|kids|, i requires 0 <= i < |kids| => SpotOf(w, kids[i], ps[i]))
  }

  function RefEntry(st: Storage, log: seq<Byte>, e: DirEntry): DirEntry {
    e.(ref := if e.ref <= |log| then RefAt(st, log, e.ref) else 0)
  }

  function BareEntry(e: DirEntry): DirEntry {
    e.(num := 0, etype := 0)
  }

  /** The length of a stored listing is the one the tree calls for, whatever the blocks
      compress to. */
  lemma ListingLength(frags: bool, st: Storage, w: Snapshot, kids: seq<Kid>, ps: seq<Placed>, base: nat)
    requires |kids| == |ps| && AllSeated(w, ps)
    requires forall i :: 0 <= i < |kids| ==>
               EntryFits(st, w, ps[i]) &&
                 w.starts[ps[i].id] == InodeStart(frags, kids[i].node, KidBase(frags, kids, i, base))
    ensures |ListingOf(st, w, kids, ps)| == ListingLen(frags, kids, base)
  {
    hide RefAt, EncodeListing, ListLen, SortByName, InodeStart, KidBase, Block32, Floor, KeepsNames, Number, KindCode;
    var spots := SpotsOf(w, kids, ps);
    var toRef, bare := (e: DirEntry) => RefEntry(st, w.inodeLog, e), (e: DirEntry) => BareEntry(e);
    assert MapEntries(toRef, spots) == EntriesOf(st, w, kids, ps);
    assert MapEntries(bare, spots) == Spots(frags, kids, base);
    NamesKept(toRef);
    NamesKept(bare);
    SortCommutes(toRef, spots);
    SortCommutes(bare, spots);
    SpotsOnly(bare, SortByName(spots));
    SameElements(SortByName(spots), spots);
    SpotBlocks(st, w, kids, ps, SortByName(spots));
    EncodedLen(toRef, SortByName(spots));
  }

  lemma NamesKept(h: DirEntry -> DirEntry)
    requires forall e :: h(e).name == e.name
    ensures KeepsNames(h)
  {
  }

  lemma SpotBlocks(st: Storage, w: Snapshot, kids: seq<Kid>, ps: seq<Placed>, es: seq<DirEntry>)
    requires |kids| == |ps| && AllSeated(w, ps) && forall i :: 0 <= i < |kids| ==> EntryFits(st, w, ps[i])
    requires forall x :: x in es ==> x in SpotsOf(w, kids, ps)
    ensures BlocksAgree((e: DirEntry) => RefEntry(st, w.inodeLog, e), es)
  {
    hide RefAt, Block32, Floor, BlockStart, Number, KindCode;
    var spots := SpotsOf(w, kids, ps);
    forall x, y | x in es && y in es
      ensures Block32(RefEntry(st, w.inodeLog, x)) == Block32(RefEntry(st, w.inodeLog, y)) <==>
              Floor(x.ref) == Floor(y.ref)
    {
      var i :| 0 <= i < |spots| && spots[i] == x;
      var j :| 0 <= j < |spots| && spots[j] == y;
      EntryBlock(st, w, kids[i], ps[i]);
      EntryBlock(st, w, kids[j], ps[j]);
      SameBlock(st, w.inodeLog, w.starts[ps[i].id], w.starts[ps[j].id]);
    }
  }

  /** The listing of a directory fits its 16-bit size and has names the reader accepts. */
  ghost predicate ListingFits(st: Storage, w: Snapshot, kids: seq<Kid>, ps: seq<Placed>)
    requires |kids| == |ps| && AllSeated(w, ps)
  {
    |ListingOf(st, w, kids, ps)| <= 65532 && ShortNames(kids)
  }

  /** ... and so does every listing below n. */
  ghost predicate ListingsBounded(st: Storage, w: Snapshot, n: Node, p: Placed)
    decreases n
  {
    n.Dir? ==>
      && p.PDir? && |p.kids| == |n.kids| && AllSeated(w, p.kids)
      && ListingFits(st, w, n.kids, p.kids)
      && forall i :: 0 <= i < |n.kids| ==> ListingsBounded(st, w, n.kids[i].node, p.kids[i])
  }

  /** Whether the listings of a run fit is a fact of the tree. */
  lemma {:induction false} BoundedIffFit(frags: bool, st: Storage, w: Snapshot, n: Node, p: Placed, base: nat,
                                         before: nat)
    requires Positioned(frags, w, n, p, base, before) && InRange(st, w, n, p)
    ensures ListingsBounded(st, w, n, p) <==> ListingsFit(frags, n, base)
    decreases n
  {
    hide ListingOf, ListingLen, InodeStart, KidBase, SizeOfKids, BlockStart, ListingInRange, WordCount;
    if n.Dir? {
      forall i | 0 <= i < |n.kids|
        ensures ListingsBounded(st, w, n.kids[i].node, p.kids[i]) <==>
                ListingsFit(frags, n.kids[i].node, KidBase(frags, n.kids, i, base))
        ensures Seated(w, p.kids[i]) &&
                w.starts[p.kids[i].id] == InodeStart(frags, n.kids[i].node, KidBase(frags, n.kids, i, base))
      {
        var d := SizeOfKids(frags, n.kids[..i]).data;
        assert Positioned(frags, w, n.kids[i].node, p.kids[i], KidBase(frags, n.kids, i, base), before + d);
        BoundedIffFit(frags, st, w, n.kids[i].node, p.kids[i], KidBase(frags, n.kids, i, base), before + d);
      }
      ListingLength(frags, st, w, n.kids, p.kids, base);
    }
  }
}
