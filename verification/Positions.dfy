/** What a tree fixes before any image is built: the size of every inode record, where each
    record starts, and with that the exact length of every directory listing. */
module Positions {
  import opened Bytes
  import opened Metadata
  import opened Directory
  import opened Tree

  // ----- Sizes -----

  /** The number of data blocks of a file: with fragments only the full ones. */
  function WordCount(frags: bool, data: seq<Byte>): nat {
    if frags then |data| / BLOCK_SIZE else (|data| + BLOCK_SIZE - 1) / BLOCK_SIZE
  }

  /** The length of a node's own inode record. */
  function OwnInode(frags: bool, n: Node): nat {
    match n
    case File(_, data) => 32 + 4 * WordCount(frags, data)
    case Link(_, target) => 24 + |target|
    case Dir(_, _) => 32
  }

  /** Of a subtree: at most how many bytes of file data and of listings, and exactly how many
      bytes of inode records. */
  datatype Sizes = Sizes(data: nat, inodes: nat, listings: nat)

  function Plus(a: Sizes, b: Sizes): Sizes {
    Sizes(a.data + b.data, a.inodes + b.inodes, a.listings + b.listings)
  }

  /** The listing of these children, were each under a header of its own. */
  function NameCost(kids: seq<Kid>): nat {
    if kids == [] then 0 else NameCost(kids[..|kids| - 1]) + 20 + |kids[|kids| - 1].name|
  }

  function SizeOf(frags: bool, n: Node): (s: Sizes)
    ensures s.inodes >= OwnInode(frags, n)
    decreases n, 1
  {
    match n
    case File(_, data) => Sizes(|data|, OwnInode(frags, n), 0)
    case Link(_, _) => Sizes(0, OwnInode(frags, n), 0)
    case Dir(_, kids) => Plus(SizeOfKids(frags, kids), Sizes(0, OwnInode(frags, n), NameCost(kids)))
  }

  function SizeOfKids(frags: bool, kids: seq<Kid>): Sizes
    decreases kids, 0
  {
    if kids == [] then Sizes(0, 0, 0)
    else Plus(SizeOfKids(frags, kids[..|kids| - 1]), SizeOf(frags, kids[|kids| - 1].node))
  }

  // ----- Positions -----

  /** Where the inode of n starts when its subtree is emitted from position `base` on: a
      directory's inode comes after everything below it. */
  function InodeStart(frags: bool, n: Node, base: nat): nat {
    base + SizeOf(frags, n).inodes - OwnInode(frags, n)
  }

  /** Where the subtree of child i begins. */
  function KidBase(frags: bool, kids: seq<Kid>, i: nat, base: nat): nat
    requires i <= |kids|
  {
    base + SizeOfKids(frags, kids[..i]).inodes
  }

  /** The children as entries that carry positions instead of references. */
  function Spots(frags: bool, kids: seq<Kid>, base: nat): (es: seq<DirEntry>)
    ensures |es| == |kids|
    ensures forall i :: 0 <= i < |kids| ==>
              es[i] == DirEntry(kids[i].name, InodeStart(frags, kids[i].node, KidBase(frags, kids, i, base)), 0, 0)
  {
    seq(|kids|, i requires 0 <= i < |kids| =>
      DirEntry(kids[i].name, InodeStart(frags, kids[i].node, KidBase(frags, kids, i, base)), 0, 0))
  }

  // ----- The length of a listing -----

  /** How far the entries from j on start in the metadata block at `floor`, at most 256 in all. */
  function SpotRun(es: seq<DirEntry>, floor: nat, j: nat): (r: nat)
    requires j <= |es| && j <= MAX_GROUP
    ensures j <= r <= |es| && r <= MAX_GROUP
    decreases |es| - j
  {
    if j < |es| && j < MAX_GROUP && Floor(es[j].ref) == floor then SpotRun(es, floor, j + 1) else j
  }

  function SpotGroup(es: seq<DirEntry>): (g: nat)
    requires es != []
    ensures 1 <= g <= |es| && g <= MAX_GROUP
  {
    SpotRun(es, Floor(es[0].ref), 0)
  }

  function NamesLen(es: seq<DirEntry>): nat {
    if es == [] then 0 else 8 + |es[0].name| + NamesLen(es[1..])
  }

  /** 12 bytes a header, 8 bytes and a name an entry; a header for each run of entries whose
      inodes start in one metadata block. */
  function ListLen(es: seq<DirEntry>): nat
    decreases |es|
  {
    if es == [] then 0
    else
      var g := SpotGroup(es);
      12 + NamesLen(es[..g]) + ListLen(es[g..])
  }

  lemma {:induction false} LongNamesLen(es: seq<DirEntry>)
    requires forall i :: 0 <= i < |es| ==> |es[i].name| >= 255
    ensures NamesLen(es) >= 263 * |es|
    decreases |es|
  {
    if es != [] {
      LongNamesLen(es[1..]);
    }
  }

  lemma {:induction false} LongListing(es: seq<DirEntry>)
    requires forall i :: 0 <= i < |es| ==> |es[i].name| >= 255
    ensures ListLen(es) >= 263 * |es|
    decreases |es|
  {
    hide NamesLen;
    if es != [] {
      var g := SpotGroup(es);
      LongNamesLen(es[..g]);
      LongListing(es[g..]);
    }
  }

  /** The length of the listing of these children, a fact of the tree. */
  function ListingLen(frags: bool, kids: seq<Kid>, base: nat): nat {
    ListLen(SortByName(Spots(frags, kids, base)))
  }

  // ----- What the fixed-width fields ask of a tree -----

  /** Every listing fits its 16-bit size and has names the reader accepts. */
  ghost predicate ListingsFit(frags: bool, n: Node, base: nat)
    decreases n
  {
    n.Dir? ==>
      && ListingLen(frags, n.kids, base) <= 65532 && ShortNames(n.kids)
      && forall i :: 0 <= i < |n.kids| ==> ListingsFit(frags, n.kids[i].node, KidBase(frags, n.kids, i, base))
  }

  /** Every file that has data blocks is preceded by less than 4 GiB of data. */
  ghost predicate StartsFit(frags: bool, n: Node, before: nat)
    decreases n
  {
    match n
    case File(_, data) => WordCount(frags, data) > 0 ==> before < TWO_32
    case Link(_, _) => true
    case Dir(_, kids) =>
      forall i :: 0 <= i < |kids| ==> StartsFit(frags, kids[i].node, before + SizeOfKids(frags, kids[..i]).data)
  }

  /** The bytes before the first data block: the superblock and the compressor options. */
  const MAX_PREFIX: nat := 106

  /** Facts of the tree under which no offset and no table can outgrow its field. */
  ghost predicate Small(frags: bool, n: Node) {
    && StartsFit(frags, n, MAX_PREFIX)
    && SizeOf(frags, n).data < 0x1000_0000_0000_0000
    && SizeOf(frags, n).inodes + 2 * (SizeOf(frags, n).inodes / META_MAX + 1) < TWO_32
    && SizeOf(frags, n).listings + 2 * (SizeOf(frags, n).listings / META_MAX + 1) < TWO_32
  }

  // ----- Renaming references -----

  /** Entries with something done to all but their names. */
  function MapEntries(h: DirEntry -> DirEntry, es: seq<DirEntry>): (r: seq<DirEntry>)
    ensures |r| == |es| && forall i :: 0 <= i < |es| ==> r[i] == h(es[i])
  {
    if es == [] then [] else [h(es[0])] + MapEntries(h, es[1..])
  }

  ghost predicate KeepsNames(h: DirEntry -> DirEntry) {
    forall e :: h(e).name == e.name
  }

  lemma {:induction false} InsertCommutes(h: DirEntry -> DirEntry, e: DirEntry, es: seq<DirEntry>)
    requires KeepsNames(h)
    ensures InsertByName(h(e), MapEntries(h, es)) == MapEntries(h, InsertByName(e, es))
    decreases |es|
  {
    hide NameLe;
    if es != [] && !NameLe(e.name, es[0].name) {
      InsertCommutes(h, e, es[1..]);
      assert MapEntries(h, es)[1..] == MapEntries(h, es[1..]);
    }
  }

  /** Sorting by name and renaming references commute. */
  lemma {:induction false} SortCommutes(h: DirEntry -> DirEntry, es: seq<DirEntry>)
    requires KeepsNames(h)
    ensures SortByName(MapEntries(h, es)) == MapEntries(h, SortByName(es))
    decreases |es|
  {
    hide InsertByName;
    if es != [] {
      SortCommutes(h, es[1..]);
      assert MapEntries(h, es)[1..] == MapEntries(h, es[1..]);
      InsertCommutes(h, es[0], SortByName(es[1..]));
    }
  }

  /** h turns positions into references whose 32-bit block tells metadata blocks apart. */
  ghost predicate BlocksAgree(h: DirEntry -> DirEntry, es: seq<DirEntry>) {
    forall x, y :: x in es && y in es ==> (Block32(h(x)) == Block32(h(y)) <==> Floor(x.ref) == Floor(y.ref))
  }

  lemma BlockAgrees(h: DirEntry -> DirEntry, es: seq<DirEntry>, j: nat)
    requires BlocksAgree(h, es) && j < |es|
    ensures Block32(MapEntries(h, es)[j]) == Block32(h(es[0])) <==> Floor(es[j].ref) == Floor(es[0].ref)
  {
    hide Block32, Floor, MapEntries;
    assert es[j] in es && es[0] in es;
  }

  lemma {:induction false} RunsAgree(h: DirEntry -> DirEntry, es: seq<DirEntry>, j: nat)
    requires BlocksAgree(h, es) && es != [] && j <= |es| && j <= MAX_GROUP
    ensures RunFrom(MapEntries(h, es), Block32(h(es[0])), j) == SpotRun(es, Floor(es[0].ref), j)
    decreases |es| - j
  {
    hide Block32, Floor, MapEntries, BlocksAgree;
    if j < |es| && j < MAX_GROUP {
      BlockAgrees(h, es, j);
      RunsAgree(h, es, j + 1);
    }
  }

  lemma {:induction false} EntriesLen(h: DirEntry -> DirEntry, es: seq<DirEntry>, base: nat)
    requires KeepsNames(h)
    ensures |EncodeEntries(MapEntries(h, es), base)| == NamesLen(es)
    decreases |es|
  {
    hide EncodeFixed;
    if es != [] {
      EntriesLen(h, es[1..], base);
      assert MapEntries(h, es)[1..] == MapEntries(h, es[1..]);
    }
  }

  lemma {:induction false} MapSplits(h: DirEntry -> DirEntry, es: seq<DirEntry>, g: nat)
    requires g <= |es|
    ensures MapEntries(h, es)[..g] == MapEntries(h, es[..g])
    ensures MapEntries(h, es)[g..] == MapEntries(h, es[g..])
  {
  }

  /** The encoded listing has the length the positions call for. */
  lemma {:induction false} EncodedLen(h: DirEntry -> DirEntry, es: seq<DirEntry>)
    requires KeepsNames(h) && BlocksAgree(h, es)
    ensures |EncodeListing(MapEntries(h, es))| == ListLen(es)
    decreases |es|
  {
    hide EncodeEntries, EncodeHeader, Block32, Floor, NamesLen, KeepsNames;
    if es != [] {
      var mapped := MapEntries(h, es);
      RunsAgree(h, es, 0);
      var g := GroupLen(mapped);
      MapSplits(h, es, g);
      EntriesLen(h, es[..g], mapped[0].num);
      assert mapped[..g][0] == mapped[0];
      EncodedLen(h, es[g..]);
    }
  }

  /** Numbers and types play no part in it. */
  lemma {:induction false} SpotsOnly(h: DirEntry -> DirEntry, es: seq<DirEntry>)
    requires KeepsNames(h) && forall e :: h(e).ref == e.ref
    ensures ListLen(MapEntries(h, es)) == ListLen(es)
    decreases |es|
  {
    hide Floor, NamesLen, KeepsNames;
    if es != [] {
      SameRuns(h, es, Floor(es[0].ref), 0);
      var g := SpotGroup(es);
      MapSplits(h, es, g);
      SameNames(h, es[..g]);
      SpotsOnly(h, es[g..]);
    }
  }

  lemma {:induction false} SameRuns(h: DirEntry -> DirEntry, es: seq<DirEntry>, floor: nat, j: nat)
    requires (forall e :: h(e).ref == e.ref) && j <= |es| && j <= MAX_GROUP
    ensures SpotRun(MapEntries(h, es), floor, j) == SpotRun(es, floor, j)
    decreases |es| - j
  {
    hide Floor;
    if j < |es| && j < MAX_GROUP {
      SameRuns(h, es, floor, j + 1);
    }
  }

  lemma {:induction false} SameNames(h: DirEntry -> DirEntry, es: seq<DirEntry>)
    requires KeepsNames(h)
    ensures NamesLen(MapEntries(h, es)) == NamesLen(es)
    decreases |es|
  {
    if es != [] {
      SameNames(h, es[1..]);
      assert MapEntries(h, es)[1..] == MapEntries(h, es[1..]);
    }
  }
}
