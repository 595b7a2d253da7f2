/** Directory listings: the writer's grouped encoding (write.go) and the reader (dir.go). */
module Directory {
  import opened Bytes
  import opened Metadata
  import opened Inodes

  datatype DirEntry = DirEntry(name: seq<Byte>, ref: nat, num: nat, etype: nat)

  const MAX_GROUP: nat := 256
  const MAX_NAME: nat := 256
  const MAX_DIR_ENTRIES: nat := 0x40_0000

  // ----- buildDirListing -----

  /** uint32(ref >> 16): the inode-table block an entry's inode starts in. */
  function Block32(e: DirEntry): nat {
    e.ref / TWO_16 % TWO_32
  }

  /** How far the run of entries sharing `block` reaches, from j on and at most 256 in all. */
  function RunFrom(es: seq<DirEntry>, block: nat, j: nat): (r: nat)
    requires j <= |es| && j <= MAX_GROUP
    ensures j <= r <= |es| && r <= MAX_GROUP
    ensures forall i :: j <= i < r ==> Block32(es[i]) == block
    ensures r < |es| && r < MAX_GROUP ==> Block32(es[r]) != block
    decreases |es| - j
  {
    if j < |es| && j < MAX_GROUP && Block32(es[j]) == block then RunFrom(es, block, j + 1) else j
  }

  /** The number of entries under the first header. */
  function GroupLen(es: seq<DirEntry>): (g: nat)
    requires es != []
    ensures 1 <= g <= |es| && g <= 256
    ensures forall i :: 0 <= i < g ==> Block32(es[i]) == Block32(es[0])
    ensures g < |es| && g < 256 ==> Block32(es[g]) != Block32(es[0])
  {
    RunFrom(es, Block32(es[0]), 0)
  }

  function EncodeHeader(count: nat, block: nat, base: nat): (r: seq<Byte>)
    requires count >= 1
    ensures |r| == 12
  {
    LE32(count - 1) + LE32(block) + LE32(base)
  }

  /** uint16(int16(num - base)): the low 16 bits of the difference. */
  function Delta16(num: nat, base: nat): (d: nat)
    ensures d < TWO_16
  {
    (num - base) % TWO_16
  }

  function EncodeFixed(e: DirEntry, base: nat): (r: seq<Byte>)
    ensures |r| == 8
  {
    LE16(e.ref % TWO_16) + LE16(Delta16(e.num, base)) + LE16(e.etype) + LE16((|e.name| - 1) % TWO_16)
  }

  function EncodeEntries(es: seq<DirEntry>, base: nat): seq<Byte> {
    if es == [] then [] else EncodeFixed(es[0], base) + es[0].name + EncodeEntries(es[1..], base)
  }

  function EncodeGroup(es: seq<DirEntry>): seq<Byte>
    requires es != []
  {
    EncodeHeader(|es|, Block32(es[0]), es[0].num) + EncodeEntries(es, es[0].num)
  }

  function EncodeListing(es: seq<DirEntry>): seq<Byte>
    decreases |es|
  {
    if es == [] then []
    else
      var g := GroupLen(es);
      EncodeGroup(es[..g]) + EncodeListing(es[g..])
  }

  lemma {:induction false} EntriesSnoc(es: seq<DirEntry>, base: nat, k: nat)
    requires k < |es|
    ensures EncodeEntries(es[..k + 1], base) ==
            EncodeEntries(es[..k], base) + (EncodeFixed(es[k], base) + es[k].name)
    decreases |es|
  {
    hide EncodeFixed;
    var long, short := es[..k + 1], es[..k];
    if k == 0 {
      assert long == [es[0]] && short == [] && long[1..] == [];
      assert EncodeEntries(long[1..], base) == [];
      var first := EncodeFixed(es[0], base) + es[0].name;
      assert first + [] == first == [] + first;
    } else {
      EntriesSnoc(es[1..], base, k - 1);
      assert long[1..] == es[1..][..k] && short[1..] == es[1..][..k - 1] && es[1..][k - 1] == es[k];
      var first := EncodeFixed(es[0], base) + es[0].name;
      var last := EncodeFixed(es[k], base) + es[k].name;
      assert first + (EncodeEntries(short[1..], base) + last) == (first + EncodeEntries(short[1..], base)) + last;
    }
  }

  /** The nested loops of buildDirListing. */
  method BuildDirListing(children: seq<DirEntry>) returns (out: seq<Byte>)
    ensures out == EncodeListing(children)
  {
    hide EncodeEntries, EncodeHeader, EncodeFixed, GroupLen, Block32;
    out := [];
    var i := 0;
    assert children[0..] == children;
    while i < |children|
      invariant 0 <= i <= |children|
      invariant out + EncodeListing(children[i..]) == EncodeListing(children)
    {
      ghost var rest, before := children[i..], out;
      var j := FindGroup(children, i);
      var group := children[i..j];
      assert group == rest[..j - i] && children[j..] == rest[j - i..];
      var entries := EncodeGroupEntries(group, group[0].num);
      var encoded := EncodeHeader(j - i, Block32(group[0]), group[0].num) + entries;
      out := out + encoded;
      assert before + (encoded + EncodeListing(children[j..])) == out + EncodeListing(children[j..]);
      i := j;
    }
    assert children[i..] == [];
  }

  method FindGroup(children: seq<DirEntry>, i: nat) returns (j: nat)
    requires i < |children|
    ensures i < j <= |children| && j - i == GroupLen(children[i..])
  {
    ghost var rest := children[i..];
    var baseBlock := Block32(children[i]);
    j := i;
    while j < |children| && j - i < MAX_GROUP && Block32(children[j]) == baseBlock
      invariant i <= j <= |children| && j - i <= MAX_GROUP
      invariant GroupLen(rest) == RunFrom(rest, baseBlock, j - i)
    {
      j := j + 1;
    }
  }

  method EncodeGroupEntries(group: seq<DirEntry>, baseInode: nat) returns (entries: seq<Byte>)
    ensures entries == EncodeEntries(group, baseInode)
  {
    hide EncodeFixed;
    entries := [];
    for k := 0 to |group|
      invariant entries == EncodeEntries(group[..k], baseInode)
    {
      EntriesSnoc(group, baseInode, k);
      entries := entries + (EncodeFixed(group[k], baseInode) + group[k].name);
    }
    assert group[..|group|] == group;
  }

  // ----- readDir -----

  /** The reader between two records: what it has, where its cursor stands, and how many
      bytes of the listing are left. */
  datatype Parse = Parse(out: seq<DirEntry>, c: Cursor, remaining: int)

  function ParseFixed(eh: seq<Byte>, block: nat, base: int, name: seq<Byte>): DirEntry
    requires |eh| == 8
  {
    DirEntry(name, block * TWO_16 + U16(eh[0..2]), (base + S16(U16(eh[2..4]))) % TWO_32, U16(eh[4..6]))
  }

  function ParseEntry(fs: FS, p: Parse, block: nat, base: int): Result<Parse> {
    var (eh, c1) :- ReadBytes(fs, p.c, 8);
    var left := p.remaining - 8;
    var nameLen := U16(eh[6..8]) + 1;
    if nameLen > left || nameLen > MAX_NAME then Err(Corrupt)
    else
      var (name, c2) :- ReadBytes(fs, c1, nameLen);
      if |p.out| >= MAX_DIR_ENTRIES then Err(TooLarge)
      else Ok(Parse(p.out + [ParseFixed(eh, block, base, name)], c2, left - nameLen))
  }

  /** Up to `count` entries of one group. */
  function ParseGroup(fs: FS, p: Parse, count: nat, block: nat, base: int): (r: Result<Parse>)
    ensures r.Ok? ==> r.value.remaining <= p.remaining
    decreases count
  {
    if count == 0 || p.remaining < 8 then Ok(p)
    else
      var p1 :- ParseEntry(fs, p, block, base);
      ParseGroup(fs, p1, count - 1, block, base)
  }

  /** A header and its entries. */
  function ParseHeader(fs: FS, p: Parse): (r: Result<Parse>)
    ensures r.Ok? ==> r.value.remaining <= p.remaining - 12
  {
    var (hdr, c1) :- ReadBytes(fs, p.c, 12);
    var count := U32(hdr[0..4]) + 1;
    if count > MAX_GROUP then Err(Corrupt)
    else ParseGroup(fs, Parse(p.out, c1, p.remaining - 12), count, U32(hdr[4..8]), S32(U32(hdr[8..12])))
  }

  function ParseListing(fs: FS, p: Parse): Result<seq<DirEntry>>
    decreases p.remaining
  {
    if p.remaining < 12 then Ok(p.out)
    else
      var p1 :- ParseHeader(fs, p);
      ParseListing(fs, p1)
  }

  function ReadDir(fs: FS, dir: Inode): Result<seq<DirEntry>> {
    if dir.size == 0 then Ok([])
    else
      var c :- OpenCursor(fs, TableOffset(fs.sb.dirTable, dir.dirStartBlock), dir.dirOffset);
      ParseListing(fs, Parse([], c, dir.size))
  }

  /** readDir as nested loops over one cursor updated in place. */
  method ReadDirLoop(fs: FS, dir: Inode) returns (r: Result<seq<DirEntry>>)
    ensures r == ReadDir(fs, dir)
  {
    hide ReadBytes, OpenCursor, ReadMetaBlock;
    if dir.size == 0 {
      return Ok([]);
    }
    var opening := NewMetaCursor(fs, TableOffset(fs.sb.dirTable, dir.dirStartBlock), dir.dirOffset);
    if opening.Err? {
      return Err(opening.error);
    }
    var c := opening.value;
    var remaining: int := dir.size;
    var out: seq<DirEntry> := [];
    while remaining >= 12
      invariant fresh(c) && c.fs == fs
      invariant ReadDir(fs, dir) == ParseListing(fs, Parse(out, c.View(), remaining))
      decreases remaining
    {
      ghost var before := Parse(out, c.View(), remaining);
      var hdr, _ := c.ReadN(12);
      if hdr.Err? {
        return Err(hdr.error);
      }
      var count := U32(hdr.value[0..4]) + 1;
      if count < 1 || count > MAX_GROUP {
        return Err(Corrupt);
      }
      var group := ReadGroup(fs, c, out, remaining - 12, count, U32(hdr.value[4..8]), S32(U32(hdr.value[8..12])));
      assert ParseHeader(fs, before) ==
             if group.Err? then Err(group.error) else Ok(Parse(group.value.0, c.View(), group.value.1));
      if group.Err? {
        return Err(group.error);
      }
      out, remaining := group.value.0, group.value.1;
    }
    return Ok(out);
  }

  /** The inner loop of readDir. */
  method ReadGroup(fs: FS, c: MetaCursor, already: seq<DirEntry>, left: int, count: nat, block: nat, base: int)
    returns (r: Result<(seq<DirEntry>, int)>)
    requires c.fs == fs
    modifies c
    ensures ParseGroup(fs, Parse(already, old(c.View()), left), count, block, base) ==
            if r.Err? then Err(r.error) else Ok(Parse(r.value.0, c.View(), r.value.1))
  {
    hide ReadBytes, ReadMetaBlock;
    var remaining, out := left, already;
    var i := 0;
    ghost var whole := ParseGroup(fs, Parse(already, c.View(), left), count, block, base);
    while i < count && remaining >= 8
      invariant 0 <= i <= count
      invariant whole == ParseGroup(fs, Parse(out, c.View(), remaining), count - i, block, base)
    {
      ghost var before := Parse(out, c.View(), remaining);
      var eh, _ := c.ReadN(8);
      if eh.Err? {
        return Err(eh.error);
      }
      remaining := remaining - 8;
      var nameLen := U16(eh.value[6..8]) + 1;
      if nameLen > remaining || nameLen > MAX_NAME {
        return Err(Corrupt);
      }
      var name, _ := c.ReadN(nameLen);
      if name.Err? {
        return Err(name.error);
      }
      remaining := remaining - nameLen;
      if |out| >= MAX_DIR_ENTRIES {
        return Err(TooLarge);
      }
      out := out + [ParseFixed(eh.value, block, base, name.value)];
      assert ParseEntry(fs, before, block, base) == Ok(Parse(out, c.View(), remaining));
      i := i + 1;
    }
    return Ok((out, remaining));
  }
}
