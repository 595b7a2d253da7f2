/** Reading a directory listing back: exact inode numbers, and the sharp 16-bit size bound. */
module DirectoryRoundTrip {
  import opened Bytes
  import opened Codecs
  import opened Metadata
  import opened Inodes
  import opened Directory
  import opened Records

  // ----- Inode numbers through a 16-bit delta -----

  /** Some int16 step leads from one 32-bit number to the other, wrap-around included. */
  predicate Near(base: nat, num: nat) {
    var diff := num - base;
    -0x8000 <= diff < 0x8000 || -0x8000 <= diff + TWO_32 < 0x8000 || -0x8000 <= diff - TWO_32 < 0x8000
  }

  /** The number the reader computes from a stored base and a stored delta. */
  function Recovered(base: nat, num: nat): nat {
    (S32(base) + S16(Delta16(num, base))) % TWO_32
  }

  /** The delta loses nothing exactly when the two numbers are within an int16 step. */
  lemma DeltaRecovers(base: nat, num: nat)
    requires base < TWO_32 && num < TWO_32
    ensures Recovered(base, num) == num <==> Near(base, num)
  {
    hide S16, S32, Delta16;
    var diff, d := num - base, S16(Delta16(num, base));
    DeltaIsCongruent(num, base);
    SignedBase(base, d);
    WrapsTo(base, d, num);
    if Near(base, num) {
      var step := if -0x8000 <= diff < 0x8000 then diff
                  else if -0x8000 <= diff + TWO_32 < 0x8000 then diff + TWO_32 else diff - TWO_32;
      OneStep(diff, d, step);
    }
  }

  lemma DeltaIsCongruent(num: nat, base: nat)
    ensures var d := S16(Delta16(num, base)); -0x8000 <= d < 0x8000 && (num - base - d) % TWO_16 == 0
  {
  }

  lemma SignedBase(base: nat, d: int)
    ensures (S32(base) + d) % TWO_32 == (base + d) % TWO_32
  {
  }

  lemma WrapsTo(base: nat, d: int, num: nat)
    requires base < TWO_32 && num < TWO_32 && -0x8000 <= d < 0x8000
    ensures (base + d) % TWO_32 == num <==>
            num - base - d == 0 || num - base - d == TWO_32 || num - base - d == -TWO_32
  {
  }

  /** Two int16 values congruent modulo 2^16 are equal. */
  lemma OneStep(diff: int, d: int, step: int)
    requires (diff - d) % TWO_16 == 0 && (diff - step) % TWO_16 == 0
    requires -0x8000 <= d < 0x8000 && -0x8000 <= step < 0x8000
    ensures d == step
  {
  }

  /** The fields of an entry fit their widths; the reader wants names of at most 256 bytes. */
  ghost predicate EntryOk(e: DirEntry) {
    1 <= |e.name| <= TWO_16 && e.ref < TWO_16 * TWO_32 && e.num < TWO_32 && e.etype < TWO_16
  }

  ghost predicate Short(es: seq<DirEntry>) {
    forall i :: 0 <= i < |es| ==> |es[i].name| <= 256
  }

  /** Entries that can be stored: entries whose inodes start in one block have near numbers. */
  ghost predicate Listable(es: seq<DirEntry>) {
    && (forall i :: 0 <= i < |es| ==> EntryOk(es[i]))
    && (forall i, j :: 0 <= i < |es| && 0 <= j < |es| && Block32(es[i]) == Block32(es[j]) ==>
          Near(es[i].num, es[j].num))
  }

  /** Entries under one header: the block is shared and the numbers are near the base. */
  ghost predicate Grouped(es: seq<DirEntry>, block: nat, base: nat) {
    base < TWO_32 &&
    forall i :: 0 <= i < |es| ==> EntryOk(es[i]) && Block32(es[i]) == block && Near(base, es[i].num)
  }

  // ----- One entry -----

  lemma FixedParses(e: DirEntry, base: nat)
    requires EntryOk(e) && base < TWO_32 && Near(base, e.num)
    ensures ParseFixed(EncodeFixed(e, base), Block32(e), S32(base), e.name) == e
    ensures U16(EncodeFixed(e, base)[6..8]) == |e.name| - 1
  {
    hide Near, LE16, S16, S32;
    var eh := EncodeFixed(e, base);
    assert eh[0..2] == LE16(e.ref % TWO_16);
    assert eh[2..4] == LE16(Delta16(e.num, base));
    assert eh[4..6] == LE16(e.etype);
    assert eh[6..8] == LE16((|e.name| - 1) % TWO_16);
    DeltaRecovers(base, e.num);
  }

  /** A cursor at the start of an encoded entry parses it when the remaining bytes allow. */
  lemma EntryParses(fs: FS, st: Storage, table: int, s: seq<Byte>, k: nat, p: Parse, e: DirEntry, base: nat)
    requires TableAt(fs, st, table, s) && CursorAt(st, table, s, k, p.c)
    requires EntryOk(e) && base < TWO_32 && Near(base, e.num)
    requires Holds(s, k, EncodeFixed(e, base) + e.name)
    requires |p.out| < MAX_DIR_ENTRIES && p.remaining >= 8 + |e.name| && |e.name| <= MAX_NAME
    ensures var r := ParseEntry(fs, p, Block32(e), S32(base));
            && r.Ok? && r.value.out == p.out + [e] && r.value.remaining == p.remaining - 8 - |e.name|
            && CursorAt(st, table, s, k + 8 + |e.name|, r.value.c)
  {
    hide ReadBytes, TableAt, CursorAt, Near, EncodeFixed, ParseFixed, Block32, S32;
    HoldsParts(s, k, EncodeFixed(e, base), e.name);
    ReadBack(fs, st, table, s, k, p.c, 8);
    var c1 := ReadBytes(fs, p.c, 8).value.1;
    ReadBack(fs, st, table, s, k + 8, c1, |e.name|);
    FixedParses(e, base);
  }

  /** ... and refuses it when the name is over 256 bytes or does not fit the remaining ones. */
  lemma EntryRefused(fs: FS, st: Storage, table: int, s: seq<Byte>, k: nat, p: Parse, e: DirEntry, base: nat)
    requires TableAt(fs, st, table, s) && CursorAt(st, table, s, k, p.c)
    requires EntryOk(e) && base < TWO_32 && Near(base, e.num)
    requires Holds(s, k, EncodeFixed(e, base) + e.name)
    requires 8 <= p.remaining && (p.remaining < 8 + |e.name| || |e.name| > MAX_NAME)
    ensures ParseEntry(fs, p, Block32(e), S32(base)).Err?
  {
    hide ReadBytes, TableAt, CursorAt, Near, EncodeFixed, ParseFixed, Block32, S32;
    HoldsParts(s, k, EncodeFixed(e, base), e.name);
    ReadBack(fs, st, table, s, k, p.c, 8);
    FixedParses(e, base);
  }

  // ----- One group -----

  lemma {:induction false} EntriesParse(fs: FS, st: Storage, table: int, s: seq<Byte>, k: nat, p: Parse,
                                        es: seq<DirEntry>, block: nat, base: nat)
    requires TableAt(fs, st, table, s) && CursorAt(st, table, s, k, p.c)
    requires Grouped(es, block, base) && Short(es) && Holds(s, k, EncodeEntries(es, base))
    requires |p.out| + p.remaining <= MAX_DIR_ENTRIES && p.remaining >= |EncodeEntries(es, base)|
    ensures var r := ParseGroup(fs, p, |es|, block, S32(base));
            && r.Ok? && r.value.out == p.out + es
            && r.value.remaining == p.remaining - |EncodeEntries(es, base)|
            && CursorAt(st, table, s, k + |EncodeEntries(es, base)|, r.value.c)
    decreases |es|
  {
    hide ParseEntry, TableAt, CursorAt, Near, EntryOk, EncodeFixed, Block32, S32;
    if es == [] {
      assert p.out + es == p.out;
    } else {
      var first := EncodeFixed(es[0], base) + es[0].name;
      HoldsParts(s, k, first, EncodeEntries(es[1..], base));
      EntryParses(fs, st, table, s, k, p, es[0], base);
      var p1 := ParseEntry(fs, p, block, S32(base)).value;
      EntriesParse(fs, st, table, s, k + |first|, p1, es[1..], block, base);
      assert p.out + es == (p.out + [es[0]]) + es[1..];
    }
  }

  /** With too few bytes left, or with a name that is too long, a group fails or stops short,
      with no room for another header; with bytes enough and a long name it fails. */
  lemma {:induction false} EntriesCutShort(fs: FS, st: Storage, table: int, s: seq<Byte>, k: nat, p: Parse,
                                           es: seq<DirEntry>, block: nat, base: nat)
    requires TableAt(fs, st, table, s) && CursorAt(st, table, s, k, p.c)
    requires Grouped(es, block, base) && Holds(s, k, EncodeEntries(es, base))
    requires |p.out| + p.remaining <= MAX_DIR_ENTRIES && 0 <= p.remaining
    requires p.remaining < |EncodeEntries(es, base)| || !Short(es)
    ensures var r := ParseGroup(fs, p, |es|, block, S32(base));
            && (r.Ok? ==> p.out <= r.value.out < p.out + es && r.value.remaining < 8)
            && (p.remaining >= |EncodeEntries(es, base)| ==> r.Err?)
    decreases |es|
  {
    hide ParseEntry, TableAt, CursorAt, Near, EntryOk, EncodeFixed, Block32, S32;
    assert p.out <= p.out + es;
    if p.remaining >= 8 {
      var first := EncodeFixed(es[0], base) + es[0].name;
      HoldsParts(s, k, first, EncodeEntries(es[1..], base));
      if p.remaining < |first| || |es[0].name| > MAX_NAME {
        EntryRefused(fs, st, table, s, k, p, es[0], base);
      } else {
        EntryParses(fs, st, table, s, k, p, es[0], base);
        var p1 := ParseEntry(fs, p, block, S32(base)).value;
        EntriesCutShort(fs, st, table, s, k + |first|, p1, es[1..], block, base);
        assert p.out + es == (p.out + [es[0]]) + es[1..];
      }
    }
  }

  /** A header tells the reader the count, the block and the base it was written with. */
  lemma HeaderFields(count: nat, block: nat, base: nat)
    requires 1 <= count <= MAX_GROUP && block < TWO_32 && base < TWO_32
    ensures var hdr := EncodeHeader(count, block, base);
            U32(hdr[0..4]) == count - 1 && U32(hdr[4..8]) == block && U32(hdr[8..12]) == base
  {
    hide LE32, U32;
    var hdr := EncodeHeader(count, block, base);
    assert hdr[0..4] == LE32(count - 1) && hdr[4..8] == LE32(block) && hdr[8..12] == LE32(base);
  }

  /** What ParseHeader does with a header the writer wrote. */
  lemma HeaderReads(fs: FS, st: Storage, table: int, s: seq<Byte>, k: nat, p: Parse, es: seq<DirEntry>)
    returns (c: Cursor)
    requires TableAt(fs, st, table, s) && CursorAt(st, table, s, k, p.c)
    requires 1 <= |es| <= MAX_GROUP && Grouped(es, Block32(es[0]), es[0].num) && Holds(s, k, EncodeGroup(es))
    ensures CursorAt(st, table, s, k + 12, c)
    ensures ParseHeader(fs, p) ==
            ParseGroup(fs, Parse(p.out, c, p.remaining - 12), |es|, Block32(es[0]), S32(es[0].num))
    ensures Holds(s, k + 12, EncodeEntries(es, es[0].num))
  {
    hide ReadBytes, ParseGroup, TableAt, CursorAt, Near, EncodeHeader, EncodeEntries, S32;
    var block, base := Block32(es[0]), es[0].num;
    HoldsParts(s, k, EncodeHeader(|es|, block, base), EncodeEntries(es, base));
    ReadBack(fs, st, table, s, k, p.c, 12);
    HeaderFields(|es|, block, base);
    c := ReadBytes(fs, p.c, 12).value.1;
  }

  lemma HeaderParses(fs: FS, st: Storage, table: int, s: seq<Byte>, k: nat, p: Parse, es: seq<DirEntry>)
    requires TableAt(fs, st, table, s) && CursorAt(st, table, s, k, p.c)
    requires 1 <= |es| <= MAX_GROUP && Grouped(es, Block32(es[0]), es[0].num) && Holds(s, k, EncodeGroup(es))
    requires |p.out| + p.remaining <= MAX_DIR_ENTRIES && p.remaining >= |EncodeGroup(es)| && Short(es)
    ensures var r := ParseHeader(fs, p);
            && r.Ok? && r.value.out == p.out + es && |r.value.out| + r.value.remaining <= MAX_DIR_ENTRIES
            && r.value.remaining == p.remaining - |EncodeGroup(es)|
            && CursorAt(st, table, s, k + |EncodeGroup(es)|, r.value.c)
  {
    hide ParseHeader, ParseGroup, TableAt, CursorAt, Near, EncodeHeader, EncodeEntries, Grouped, Block32, S32;
    var c := HeaderReads(fs, st, table, s, k, p, es);
    EntriesParse(fs, st, table, s, k + 12, Parse(p.out, c, p.remaining - 12), es, Block32(es[0]), es[0].num);
    EntriesLength(es, es[0].num);
  }

  lemma HeaderCutShort(fs: FS, st: Storage, table: int, s: seq<Byte>, k: nat, p: Parse, es: seq<DirEntry>)
    requires TableAt(fs, st, table, s) && CursorAt(st, table, s, k, p.c)
    requires 1 <= |es| <= MAX_GROUP && Grouped(es, Block32(es[0]), es[0].num) && Holds(s, k, EncodeGroup(es))
    requires |p.out| + p.remaining <= MAX_DIR_ENTRIES && 12 <= p.remaining
    requires p.remaining < |EncodeGroup(es)| || !Short(es)
    ensures var r := ParseHeader(fs, p);
            && (r.Ok? ==> p.out <= r.value.out < p.out + es && r.value.remaining < 8)
            && (p.remaining >= |EncodeGroup(es)| ==> r.Err?)
  {
    hide ParseHeader, ParseGroup, TableAt, CursorAt, Near, EncodeHeader, EncodeEntries, Grouped, Block32, S32, Short;
    var c := HeaderReads(fs, st, table, s, k, p, es);
    EntriesCutShort(fs, st, table, s, k + 12, Parse(p.out, c, p.remaining - 12), es, Block32(es[0]), es[0].num);
  }

  /** An entry takes at least nine bytes. */
  lemma {:induction false} EntriesLength(es: seq<DirEntry>, base: nat)
    ensures |EncodeEntries(es, base)| >= 8 * |es|
    decreases |es|
  {
    if es != [] {
      EntriesLength(es[1..], base);
    }
  }

  /** The first header covers between 1 and 256 entries, and what is left can be listed. */
  lemma GroupOfListing(es: seq<DirEntry>)
    requires Listable(es) && es != []
    ensures var g := GroupLen(es);
            && 1 <= g <= MAX_GROUP
            && Grouped(es[..g], Block32(es[0]), es[0].num) && Listable(es[g..])
  {
    hide Near, Block32;
  }

  // ----- The whole listing -----

  lemma {:induction false} ListingParses(fs: FS, st: Storage, table: int, s: seq<Byte>, k: nat, p: Parse,
                                         es: seq<DirEntry>)
    requires TableAt(fs, st, table, s) && CursorAt(st, table, s, k, p.c)
    requires Listable(es) && Short(es) && Holds(s, k, EncodeListing(es))
    requires |p.out| + p.remaining <= MAX_DIR_ENTRIES && p.remaining == |EncodeListing(es)|
    ensures ParseListing(fs, p) == Ok(p.out + es)
    decreases |es|
  {
    hide ParseHeader, EncodeGroup, TableAt, CursorAt, Listable;
    if es == [] {
      assert p.out + es == p.out;
    } else {
      var g := GroupLen(es);
      HoldsParts(s, k, EncodeGroup(es[..g]), EncodeListing(es[g..]));
      GroupOfListing(es);
      HeaderParses(fs, st, table, s, k, p, es[..g]);
      var p1 := ParseHeader(fs, p).value;
      ListingParses(fs, st, table, s, k + |EncodeGroup(es[..g])|, p1, es[g..]);
      assert p.out + es == (p.out + es[..g]) + es[g..];
    }
  }

  /** With fewer bytes than the listing has, or with a name that is too long, parsing fails or
      yields some of the first entries, as they are; with all the bytes and a long name it fails. */
  lemma {:induction false} ListingCutShort(fs: FS, st: Storage, table: int, s: seq<Byte>, k: nat, p: Parse,
                                           es: seq<DirEntry>)
    requires TableAt(fs, st, table, s) && CursorAt(st, table, s, k, p.c)
    requires Listable(es) && Holds(s, k, EncodeListing(es))
    requires |p.out| + p.remaining <= MAX_DIR_ENTRIES && 0 <= p.remaining
    requires p.remaining < |EncodeListing(es)| || (p.remaining == |EncodeListing(es)| && !Short(es))
    ensures var r := ParseListing(fs, p);
            && (r.Ok? ==> p.out <= r.value < p.out + es)
            && (p.remaining == |EncodeListing(es)| ==> r.Err?)
    decreases |es|
  {
    hide ParseHeader, EncodeGroup, TableAt, CursorAt, Listable, Short;
    EmptyListing(es);
    ShortIfEmpty(es);
    assert p.out <= p.out + es;
    if p.remaining >= 12 {
      var g := GroupLen(es);
      var group, rest := es[..g], es[g..];
      HoldsParts(s, k, EncodeGroup(group), EncodeListing(rest));
      GroupOfListing(es);
      assert p.out + es == (p.out + group) + rest;
      assert p.out + group <= p.out + es;
      ShortParts(es, g);
      if p.remaining < |EncodeGroup(group)| || !Short(group) {
        HeaderCutShort(fs, st, table, s, k, p, group);
      } else {
        HeaderParses(fs, st, table, s, k, p, group);
        var p1 := ParseHeader(fs, p).value;
        ListingCutShort(fs, st, table, s, k + |EncodeGroup(group)|, p1, rest);
      }
    } else {
      HeaderRoom(es);
    }
  }

  lemma HeaderRoom(es: seq<DirEntry>)
    ensures es != [] ==> |EncodeListing(es)| >= 12
  {
    hide EncodeEntries;
  }

  lemma ShortIfEmpty(es: seq<DirEntry>)
    ensures es == [] ==> Short(es)
  {
  }

  lemma ShortParts(es: seq<DirEntry>, g: nat)
    requires g <= |es|
    ensures Short(es) <==> Short(es[..g]) && Short(es[g..])
  {
    if Short(es[..g]) && Short(es[g..]) {
      forall i | 0 <= i < |es|
        ensures |es[i].name| <= MAX_NAME
      {
        assert i < g ==> es[..g][i] == es[i];
        assert i >= g ==> es[g..][i - g] == es[i];
      }
    }
  }

  /** Where an inode's directory fields point. */
  ghost predicate ListingAt(fs: FS, st: Storage, s: seq<Byte>, k: nat, dir: Inode, listing: seq<Byte>) {
    && TableAt(fs, st, fs.sb.dirTable, s) && |fs.image| < 0x8000_0000_0000_0000
    && Holds(s, k, listing)
    && dir.dirStartBlock == BlockStart(st, s, k) && dir.dirOffset == k - Floor(k)
    && dir.size == DirDataSize((|listing| + 3) % TWO_16)
  }

  /** A listing read through its stored 16-bit size comes back entry for entry, in order, if and
      only if it is at most 65532 bytes long and its names at most 256 bytes. Otherwise it comes
      back as an error or as some of its first entries, and as an error if only a name is too
      long. */
  lemma ListingRoundTrip(fs: FS, st: Storage, s: seq<Byte>, k: nat, dir: Inode, es: seq<DirEntry>)
    requires Listable(es) && ListingAt(fs, st, s, k, dir, EncodeListing(es))
    ensures ReadDir(fs, dir) == Ok(es) <==> |EncodeListing(es)| <= 65532 && Short(es)
    ensures ReadDir(fs, dir).Ok? ==> ReadDir(fs, dir).value <= es
    ensures |EncodeListing(es)| <= 65532 && !Short(es) ==> ReadDir(fs, dir).Err?
  {
    hide ParseListing, OpenCursor, TableOffset, EncodeListing, Listable, CursorAt, TableAt, BlockStart, Short;
    var listing := EncodeListing(es);
    EmptyListing(es);
    ShortIfEmpty(es);
    if dir.size > 0 {
      var c := OpensAt(fs, st, fs.sb.dirTable, s, k);
      var p := Parse([], c, dir.size);
      assert [] + es == es;
      if |listing| <= 65532 && Short(es) {
        ListingParses(fs, st, fs.sb.dirTable, s, k, p, es);
      } else {
        ListingCutShort(fs, st, fs.sb.dirTable, s, k, p, es);
      }
    }
  }

  lemma EmptyListing(es: seq<DirEntry>)
    ensures EncodeListing(es) == [] <==> es == []
  {
  }
}
