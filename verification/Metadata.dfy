/** An opened image, and the 8 KiB metadata blocks its tables are cut into (metadata.go). */
module Metadata {
  import opened Bytes
  import opened Codecs

  const META_MAX: nat := 8192

  /** The superblock fields the traversal uses. */
  datatype Superblock = Superblock(
    blockSize: nat, fragCount: nat, rootInode: nat,
    inodeTable: nat, dirTable: nat, fragTable: nat)

  /** FS: the bytes of the image, the size the caller of Open declared (<= 0: unknown), the
      superblock and the decompressor. The cache is treated in module Cache. */
  datatype FS = FS(image: seq<Byte>, size: int, sb: Superblock, codec: Codec)

  datatype MetaEntry = MetaEntry(data: seq<Byte>, next: int)

  /** uint16(len) with metaHeaderCompressedBit or-ed in for a block stored raw. */
  function MetaHeader(len: nat, compressed: bool): (h: nat)
    ensures len < 0x8000 ==> h % 0x8000 == len && (h >= 0x8000 <==> !compressed) && h < TWO_16
  {
    var h := len % TWO_16;
    if compressed || h >= 0x8000 then h else h + 0x8000
  }

  /** metaWriter.emit and writeMetaBlock: a 2-byte header and the stored payload. */
  function MetaBlock(st: Storage, payload: seq<Byte>): (r: seq<Byte>)
    ensures |r| == 2 + |Keep(st, payload).bytes|
  {
    var kept := Keep(st, payload);
    LE16(MetaHeader(|kept.bytes|, kept.compressed)) + kept.bytes
  }

  function ReadMetaBlock(fs: FS, at: int): Result<MetaEntry> {
    var hdr :- ReadRaw(fs.image, at, 2);
    var h := U16(hdr);
    var stored := h % 0x8000;
    if stored == 0 || stored > META_MAX then Err(Corrupt)
    else
      var raw :- ReadRaw(fs.image, at + 2, stored);
      var data :- Unpack(fs.codec, Kept(raw, h < 0x8000), META_MAX);
      Ok(MetaEntry(data, at + 2 + stored))
  }

  /** A block written by the writer is decoded to its payload, whether it was kept raw or
      compressed, and the reader then stands just past it. */
  lemma MetaBlockReads(fs: FS, st: Storage, at: int, payload: seq<Byte>)
    requires Lawful(st.codec) && fs.codec == st.codec
    requires 1 <= |payload| <= META_MAX
    requires Holds(fs.image, at, MetaBlock(st, payload))
    ensures ReadMetaBlock(fs, at) == Ok(MetaEntry(payload, at + |MetaBlock(st, payload)|))
  {
    hide Lawful, LE16;
    var kept := Keep(st, payload);
    var header := LE16(MetaHeader(|kept.bytes|, kept.compressed));
    HoldsParts(fs.image, at, header, kept.bytes);
    ReadRawHolds(fs.image, at, header);
    ReadRawHolds(fs.image, at + 2, kept.bytes);
    KeepNonEmpty(st, payload);
    KeepUnpack(st, payload, META_MAX);
  }

  // ----- The finished table of a byte stream -----

  /** The metadata blocks of a whole stream: full blocks, then a short one. */
  function Table(st: Storage, s: seq<Byte>): seq<Byte>
    decreases |s|
  {
    if s == [] then []
    else if |s| <= META_MAX then MetaBlock(st, s)
    else MetaBlock(st, s[..META_MAX]) + Table(st, s[META_MAX..])
  }

  lemma {:induction false} TableAppend(st: Storage, a: seq<Byte>, b: seq<Byte>)
    requires |a| % META_MAX == 0
    ensures Table(st, a + b) == Table(st, a) + Table(st, b)
    decreases |a|
  {
    if a == [] {
      assert a + b == b;
    } else if b == [] {
      assert a + b == a;
    } else {
      assert (a + b)[..META_MAX] == a[..META_MAX];
      assert (a + b)[META_MAX..] == a[META_MAX..] + b;
      TableAppend(st, a[META_MAX..], b);
      if |a| == META_MAX {
        assert a[..META_MAX] == a;
      }
    }
  }

  /** The start of the metadata block that position k of a stream falls into. */
  function Floor(k: nat): (f: nat)
    ensures f <= k < f + META_MAX && f % META_MAX == 0
  {
    k / META_MAX * META_MAX
  }

  /** Where, in the finished table, the block holding position k starts. */
  function BlockStart(st: Storage, s: seq<Byte>, k: nat): nat
    requires k <= |s|
  {
    |Table(st, s[..Floor(k)])|
  }

  /** The 64-bit reference of position k. The in-block part is below 8192, so or-ing it in is
      adding it. */
  function RefAt(st: Storage, s: seq<Byte>, k: nat): nat
    requires k <= |s|
  {
    (BlockStart(st, s, k) * TWO_16 + (k - Floor(k))) % TWO_64
  }

  /** A reference depends on what was written before it and on nothing that follows. */
  lemma RefStable(st: Storage, s: seq<Byte>, s': seq<Byte>, k: nat)
    requires k <= |s| && s <= s'
    ensures RefAt(st, s, k) == RefAt(st, s', k) && BlockStart(st, s, k) == BlockStart(st, s', k)
  {
    assert s[..Floor(k)] == s'[..Floor(k)];
  }

  lemma TableHasHeader(st: Storage, s: seq<Byte>)
    requires s != []
    ensures |Table(st, s)| >= 2
  {
  }

  /** Two positions share a block start exactly when they are in the same block. */
  lemma SameBlock(st: Storage, s: seq<Byte>, j: nat, k: nat)
    requires j <= |s| && k <= |s|
    ensures BlockStart(st, s, j) == BlockStart(st, s, k) <==> Floor(j) == Floor(k)
  {
    LaterBlock(st, s, Floor(j), Floor(k));
    LaterBlock(st, s, Floor(k), Floor(j));
  }

  lemma LaterBlock(st: Storage, s: seq<Byte>, a: nat, b: nat)
    requires a <= |s| && b <= |s| && a % META_MAX == 0
    ensures a < b ==> |Table(st, s[..a])| < |Table(st, s[..b])|
  {
    hide Table;
    if a < b {
      assert s[..b] == s[..a] + s[a..b];
      TableAppend(st, s[..a], s[a..b]);
      TableHasHeader(st, s[a..b]);
    }
  }

  /** The part of a table up to a block boundary is a prefix of the whole table. */
  lemma BlockStartWithin(st: Storage, s: seq<Byte>, k: nat)
    requires k <= |s|
    ensures BlockStart(st, s, k) <= |Table(st, s)|
  {
    assert s == s[..Floor(k)] + s[Floor(k)..];
    TableAppend(st, s[..Floor(k)], s[Floor(k)..]);
  }

  /** The finished table is at most two header bytes a block longer than the stream. */
  lemma {:induction false} TableLength(st: Storage, s: seq<Byte>)
    ensures |Table(st, s)| <= |s| + 2 * (|s| / META_MAX + 1)
    decreases |s|
  {
    hide Keep, MetaHeader;
    if |s| > META_MAX {
      TableLength(st, s[META_MAX..]);
      assert |s| / META_MAX == 1 + (|s| - META_MAX) / META_MAX;
    }
  }

  // ----- The cursor: a stream of bytes across blocks -----

  datatype Cursor = Cursor(next: int, cur: seq<Byte>, pos: nat)

  function OpenCursor(fs: FS, blockStart: int, inBlock: nat): Result<Cursor> {
    var e :- ReadMetaBlock(fs, blockStart);
    if inBlock > |e.data| then Err(Corrupt) else Ok(Cursor(e.next, e.data, inBlock))
  }

  /** One byte, loading the next block when the current one is used up. */
  function ReadByte(fs: FS, c: Cursor): Result<(Byte, Cursor)> {
    if c.pos < |c.cur| then
      Ok((c.cur[c.pos], c.(pos := c.pos + 1)))
    else
      var e :- ReadMetaBlock(fs, c.next);
      if e.data == [] then Err(UnexpectedEOF) else Ok((e.data[0], Cursor(e.next, e.data, 1)))
  }

  /** The reference form of metaCursor.read: byte by byte. */
  function ReadBytes(fs: FS, c: Cursor, n: nat): (r: Result<(seq<Byte>, Cursor)>)
    ensures r.Ok? ==> |r.value.0| == n
    decreases n
  {
    if n == 0 then Ok(([], c))
    else
      var (b, c1) :- ReadByte(fs, c);
      var (rest, c2) :- ReadBytes(fs, c1, n - 1);
      Ok(([b] + rest, c2))
  }

  lemma ReadNothing(fs: FS, c: Cursor)
    ensures ReadBytes(fs, c, 0) == Ok(([], c))
  {
  }

  /** Reading what is left after some bytes were already read. */
  function Continue(got: seq<Byte>, r: Result<(seq<Byte>, Cursor)>): Result<(seq<Byte>, Cursor)> {
    var (rest, c) :- r;
    Ok((got + rest, c))
  }

  /** Reading a bytes and then b bytes is reading a + b bytes, errors included. */
  lemma {:induction false} ReadsAreAStream(fs: FS, c: Cursor, a: nat, b: nat)
    ensures ReadBytes(fs, c, a + b) ==
            (var first := ReadBytes(fs, c, a);
             if first.Err? then Err(first.error)
             else Continue(first.value.0, ReadBytes(fs, first.value.1, b)))
    decreases a
  {
    if a == 0 {
      var r := ReadBytes(fs, c, b);
      if r.Ok? {
        assert [] + r.value.0 == r.value.0;
      }
    } else {
      var step := ReadByte(fs, c);
      if step.Ok? {
        var (x, c1) := step.value;
        ReadsAreAStream(fs, c1, a - 1, b);
        var first := ReadBytes(fs, c1, a - 1);
        if first.Ok? {
          var rest := ReadBytes(fs, first.value.1, b);
          if rest.Ok? {
            assert [x] + (first.value.0 + rest.value.0) == ([x] + first.value.0) + rest.value.0;
          }
        }
      }
    }
  }

  /** Inside one block a read is a slice. */
  lemma {:induction false} ReadWithinBlock(fs: FS, c: Cursor, n: nat)
    requires c.pos + n <= |c.cur|
    ensures ReadBytes(fs, c, n) == Ok((c.cur[c.pos..c.pos + n], c.(pos := c.pos + n)))
    decreases n
  {
    if n > 0 {
      ReadWithinBlock(fs, c.(pos := c.pos + 1), n - 1);
      assert c.cur[c.pos..c.pos + n] == [c.cur[c.pos]] + c.cur[c.pos + 1..c.pos + n];
    } else {
      assert c.cur[c.pos..c.pos] == [];
    }
  }

  /** The cursor stands at position k of the stream s whose finished table is at `base`. */
  ghost predicate CursorAt(st: Storage, base: int, s: seq<Byte>, k: nat, c: Cursor) {
    && c.pos <= k <= |s|
    && (k - c.pos) % META_MAX == 0
    && var b := k - c.pos;
       var e := Min(b + META_MAX, |s|);
       k <= e && c.cur == s[b..e] && c.next == base + |Table(st, s[..e])|
  }

  /** The finished table of s stands at `base` of the image. */
  ghost predicate TableAt(fs: FS, st: Storage, base: int, s: seq<Byte>) {
    Lawful(st.codec) && fs.codec == st.codec && Holds(fs.image, base, Table(st, s))
  }

  /** A finished table taken apart at the block that starts at stream position b. */
  lemma TableBlock(st: Storage, s: seq<Byte>, b: nat, e: nat)
    requires b < |s| && b % META_MAX == 0 && e == Min(b + META_MAX, |s|)
    ensures Table(st, s) == Table(st, s[..b]) + (MetaBlock(st, s[b..e]) + Table(st, s[e..]))
    ensures Table(st, s[..e]) == Table(st, s[..b]) + MetaBlock(st, s[b..e])
  {
    hide MetaBlock;
    var block, rest := s[b..e], s[e..];
    assert s == s[..b] + s[b..] && s[..e] == s[..b] + block;
    TableAppend(st, s[..b], s[b..]);
    TableAppend(st, s[..b], block);
    if rest == [] {
      assert s[b..] == block;
    } else {
      assert s[b..][..META_MAX] == block && s[b..][META_MAX..] == rest;
    }
  }

  /** Loading the block that starts at a block boundary of the stream. */
  lemma LoadBlock(fs: FS, st: Storage, base: int, s: seq<Byte>, b: nat, e: nat)
    requires TableAt(fs, st, base, s)
    requires b < |s| && b % META_MAX == 0 && e == Min(b + META_MAX, |s|)
    ensures ReadMetaBlock(fs, base + |Table(st, s[..b])|) ==
            Ok(MetaEntry(s[b..e], base + |Table(st, s[..e])|))
  {
    hide ReadMetaBlock, Lawful, MetaBlock;
    var before, block, after := Table(st, s[..b]), MetaBlock(st, s[b..e]), Table(st, s[e..]);
    TableBlock(st, s, b, e);
    HoldsParts(fs.image, base, before, block + after);
    HoldsParts(fs.image, base + |before|, block, after);
    MetaBlockReads(fs, st, base + |before|, s[b..e]);
  }

  lemma CursorSteps(st: Storage, base: int, s: seq<Byte>, k: nat, c: Cursor)
    requires CursorAt(st, base, s, k, c) && c.pos < |c.cur|
    ensures k < |s| && c.cur[c.pos] == s[k] && CursorAt(st, base, s, k + 1, c.(pos := c.pos + 1))
  {
    var b := k - c.pos;
    assert k + 1 - (c.pos + 1) == b;
  }

  /** A cursor that used up its block stands at a block boundary. */
  lemma CursorAtBoundary(st: Storage, base: int, s: seq<Byte>, k: nat, c: Cursor)
    requires CursorAt(st, base, s, k, c) && c.pos >= |c.cur| && k < |s|
    ensures k % META_MAX == 0 && c.next == base + |Table(st, s[..k])|
  {
    var b := k - c.pos;
    assert Min(b + META_MAX, |s|) == k == b + META_MAX;
  }

  /** A freshly loaded block, at its first byte. */
  lemma CursorLoaded(st: Storage, base: int, s: seq<Byte>, b: nat, e: nat, pos: nat)
    requires b < |s| && b % META_MAX == 0 && e == Min(b + META_MAX, |s|) && b + pos <= e
    ensures CursorAt(st, base, s, b + pos, Cursor(base + |Table(st, s[..e])|, s[b..e], pos))
  {
  }

  lemma ReadByteBack(fs: FS, st: Storage, base: int, s: seq<Byte>, k: nat, c: Cursor)
    requires TableAt(fs, st, base, s) && CursorAt(st, base, s, k, c) && k < |s|
    ensures ReadByte(fs, c).Ok? && ReadByte(fs, c).value.0 == s[k]
    ensures CursorAt(st, base, s, k + 1, ReadByte(fs, c).value.1)
  {
    hide ReadMetaBlock, Table, Lawful, CursorAt;
    if c.pos < |c.cur| {
      CursorSteps(st, base, s, k, c);
    } else {
      CursorAtBoundary(st, base, s, k, c);
      var e := Min(k + META_MAX, |s|);
      LoadBlock(fs, st, base, s, k, e);
      CursorLoaded(st, base, s, k, e, 1);
    }
  }

  lemma {:induction false} ReadBack(fs: FS, st: Storage, base: int, s: seq<Byte>, k: nat, c: Cursor, n: nat)
    requires TableAt(fs, st, base, s) && CursorAt(st, base, s, k, c) && k + n <= |s|
    ensures ReadBytes(fs, c, n).Ok? && ReadBytes(fs, c, n).value.0 == s[k..k + n]
    ensures CursorAt(st, base, s, k + n, ReadBytes(fs, c, n).value.1)
    decreases n
  {
    hide ReadByte, TableAt, CursorAt;
    if n > 0 {
      ReadByteBack(fs, st, base, s, k, c);
      ReadBack(fs, st, base, s, k + 1, ReadByte(fs, c).value.1, n - 1);
      assert s[k..k + n] == [s[k]] + s[k + 1..k + n];
    }
  }

  /** inodeRef: the two halves of a reference. */
  function RefBlock(ref: nat): nat { ref / TWO_16 }
  function RefOffset(ref: nat): nat { ref % TWO_16 }

  lemma RefParts(st: Storage, s: seq<Byte>, k: nat)
    requires k <= |s| && BlockStart(st, s, k) < TWO_48
    ensures RefBlock(RefAt(st, s, k)) == BlockStart(st, s, k)
    ensures RefOffset(RefAt(st, s, k)) == k - Floor(k)
  {
  }

  /** Metadata references are stable: whatever was written before position k, at k and after
      it, a cursor opened at the reference taken at k in the finished table reads back the
      bytes written from k on, for any length up to the end of the stream. */
  lemma ReferencesReadBack(fs: FS, st: Storage, base: int, s: seq<Byte>, k: nat, n: nat)
    requires TableAt(fs, st, base, s)
    requires k < |s| && k + n <= |s| && BlockStart(st, s, k) < TWO_48
    ensures var ref := RefAt(st, s, k);
            var c := OpenCursor(fs, base + RefBlock(ref), RefOffset(ref));
            && c.Ok? && CursorAt(st, base, s, k, c.value)
            && ReadBytes(fs, c.value, n).Ok?
            && ReadBytes(fs, c.value, n).value.0 == s[k..k + n]
  {
    hide ReadMetaBlock, ReadBytes, Table, TableAt, CursorAt, Lawful;
    var b := Floor(k);
    var e := Min(b + META_MAX, |s|);
    LoadBlock(fs, st, base, s, b, e);
    RefParts(st, s, k);
    CursorLoaded(st, base, s, b, e, k - b);
    var c := Cursor(base + |Table(st, s[..e])|, s[b..e], k - b);
    ReadBack(fs, st, base, s, k, c, n);
  }

  /** Loading first changes nothing for a read that would have loaded anyway. */
  lemma LoadFirst(fs: FS, c: Cursor, n: nat)
    requires c.pos >= |c.cur| && n > 0
    ensures ReadBytes(fs, c, n) ==
            (var r := ReadMetaBlock(fs, c.next);
             if r.Err? then Err(r.error)
             else if r.value.data == [] then Err(UnexpectedEOF)
             else ReadBytes(fs, Cursor(r.value.next, r.value.data, 0), n))
  {
    hide ReadMetaBlock;
    var r := ReadMetaBlock(fs, c.next);
    if r.Ok? && r.value.data != [] {
      assert ReadByte(fs, c) == ReadByte(fs, Cursor(r.value.next, r.value.data, 0));
    }
  }

  /** Copying m bytes out of the current block is a step of the whole read. */
  lemma ChunkStep(fs: FS, c: Cursor, out: seq<Byte>, m: nat, n: nat)
    requires c.pos + m <= |c.cur| && m <= n
    ensures Continue(out, ReadBytes(fs, c, n)) ==
            Continue(out + c.cur[c.pos..c.pos + m], ReadBytes(fs, c.(pos := c.pos + m), n - m))
  {
    hide ReadBytes;
    ReadWithinBlock(fs, c, m);
    ReadsAreAStream(fs, c, m, n - m);
    var rest := ReadBytes(fs, c.(pos := c.pos + m), n - m);
    if rest.Ok? {
      assert out + (c.cur[c.pos..c.pos + m] + rest.value.0) == (out + c.cur[c.pos..c.pos + m]) + rest.value.0;
    }
  }

  // ----- metaCursor itself: whole slices of blocks, updated in place -----

  class MetaCursor {
    const fs: FS
    var next: int
    var cur: seq<Byte>
    var pos: nat

    ghost function View(): Cursor
      reads this
    {
      Cursor(next, cur, pos)
    }

    constructor (fs: FS, next: int)
      ensures this.fs == fs && this.next == next && cur == [] && pos == 0
    {
      this.fs := fs;
      this.next := next;
      cur := [];
      pos := 0;
    }

    method Load() returns (r: Result<()>)
      modifies this
      ensures match ReadMetaBlock(fs, old(next))
              case Ok(e) => r == Ok(()) && View() == Cursor(e.next, e.data, 0)
              case Err(x) => r == Err(x) && View() == old(View())
    {
      var e := ReadMetaBlock(fs, next);
      if e.Err? {
        return Err(e.error);
      }
      cur, next, pos := e.value.data, e.value.next, 0;
      return Ok(());
    }

    /** read and readN: copies as much of the current block as is wanted at a time. It returns
        what the byte-by-byte form returns, and loads at most one block a byte. */
    method ReadN(n: nat) returns (r: Result<seq<Byte>>, loads: nat)
      modifies this
      ensures match ReadBytes(fs, old(View()), n)
              case Ok((bytes, c)) => r == Ok(bytes) && View() == c
              case Err(x) => r == Err(x)
      ensures loads <= n
    {
      hide ReadMetaBlock, ReadBytes;
      var out: seq<Byte> := [];
      loads := 0;
      ghost var whole := ReadBytes(fs, View(), n);
      assert whole.Ok? ==> [] + whole.value.0 == whole.value.0;
      while |out| < n
        invariant |out| <= n && loads <= |out|
        invariant whole == Continue(out, ReadBytes(fs, View(), n - |out|))
      {
        if pos >= |cur| {
          LoadFirst(fs, View(), n - |out|);
          var l := Load();
          loads := loads + 1;
          if l.Err? {
            return Err(l.error), loads;
          }
          if |cur| == 0 {
            return Err(UnexpectedEOF), loads;
          }
        }
        var m := Min(n - |out|, |cur| - pos);
        ChunkStep(fs, View(), out, m, n - |out|);
        out := out + cur[pos..pos + m];
        pos := pos + m;
      }
      ReadNothing(fs, View());
      assert out + [] == out;
      r := Ok(out);
    }
  }

  /** newMetaCursor. */
  method NewMetaCursor(fs: FS, blockStart: int, inBlock: nat) returns (r: Result<MetaCursor>)
    ensures match OpenCursor(fs, blockStart, inBlock)
            case Ok(c) => r.Ok? && fresh(r.value) && r.value.fs == fs && r.value.View() == c
            case Err(x) => r == Err(x)
  {
    var c := new MetaCursor(fs, blockStart);
    var l := c.Load();
    if l.Err? {
      return Err(l.error);
    }
    if inBlock > |c.cur| {
      return Err(Corrupt);
    }
    c.pos := inBlock;
    return Ok(c);
  }
}
