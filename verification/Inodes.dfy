/** Decoding of inodes and of a file's block list (inode.go). */
module Inodes {
  import opened Bytes
  import opened Metadata

  const BASIC_DIR: nat := 1
  const BASIC_FILE: nat := 2
  const BASIC_SYMLINK: nat := 3
  const EXT_DIR: nat := 8
  const EXT_FILE: nat := 9
  const EXT_SYMLINK: nat := 10

  const INVALID_FRAG: nat := 0xFFFF_FFFF
  const NO_XATTR: nat := 0xFFFF_FFFF

  /** inode without owner ids and time. */
  datatype Inode = Inode(
    itype: nat, mode: nat, number: nat, size: nat, xattrIdx: nat,
    blocksStart: nat, fragIdx: nat, fragOffset: nat, blockSizes: seq<nat>,
    dirStartBlock: nat, dirOffset: nat,
    target: seq<Byte>)
  {
    predicate IsDir() { itype == BASIC_DIR || itype == EXT_DIR }
    predicate IsRegular() { itype == BASIC_FILE || itype == EXT_FILE }
    predicate IsSymlink() { itype == BASIC_SYMLINK || itype == EXT_SYMLINK }
  }

  /** The upper four bits of the Unix mode, as a multiple of 0x1000. */
  function TypeBits(t: nat): nat {
    if t == BASIC_DIR || t == EXT_DIR then 0x4000
    else if t == BASIC_FILE || t == EXT_FILE then 0x8000
    else if t == BASIC_SYMLINK || t == EXT_SYMLINK then 0xA000
    else if t == 5 || t == 12 then 0x2000
    else if t == 4 || t == 11 then 0x6000
    else if t == 6 || t == 13 then 0x1000
    else if t == 7 || t == 14 then 0xC000
    else 0
  }

  function BitOr(a: nat, b: nat): nat {
    if a == 0 then b
    else if b == 0 then a
    else (if a % 2 == 1 || b % 2 == 1 then 1 else 0) + 2 * BitOr(a / 2, b / 2)
  }

  /** perm | typeBits(t): the type bits leave the low twelve bits alone. */
  function Mode(perm: nat, t: nat): nat {
    perm % 0x1000 + 0x1000 * BitOr(perm / 0x1000, TypeBits(t) / 0x1000)
  }

  /** blockCount, with the 64-bit wrap-around of its rounding addition and of int(). */
  function BlockCount(size: nat, blockSize: nat, hasFrag: bool): int
    requires blockSize > 0
  {
    if hasFrag then I64(size / blockSize)
    else I64((size + blockSize - 1) % TWO_64 / blockSize)
  }

  function DirDataSize(stored: nat): nat {
    if stored <= 3 then 0 else stored - 3
  }

  /** The block list, one 32-bit word at a time. */
  function ReadWords(fs: FS, c: Cursor, n: nat): (r: Result<(seq<nat>, Cursor)>)
    ensures r.Ok? ==> |r.value.0| == n
    decreases n
  {
    if n == 0 then Ok(([], c))
    else
      var (b, c1) :- ReadBytes(fs, c, 4);
      var (rest, c2) :- ReadWords(fs, c1, n - 1);
      Ok(([U32(b)] + rest, c2))
  }

  const MAX_BLOCKS: nat := 0x100_0000

  function ReadBlockList(fs: FS, c: Cursor, size: nat, fragIdx: nat): Result<seq<nat>>
    requires fs.sb.blockSize > 0
  {
    var n := BlockCount(size, fs.sb.blockSize, fragIdx != INVALID_FRAG);
    if n < 0 || n > MAX_BLOCKS then Err(Corrupt)
    else
      var (words, _) :- ReadWords(fs, c, n);
      Ok(words)
  }

  function ReadFileBody(fs: FS, c: Cursor, base: Inode): Result<Inode>
    requires fs.sb.blockSize > 0
  {
    var (b, c1) :- ReadBytes(fs, c, 16);
    var in1 := base.(blocksStart := U32(b[0..4]), fragIdx := U32(b[4..8]),
                     fragOffset := U32(b[8..12]), size := U32(b[12..16]));
    var words :- ReadBlockList(fs, c1, in1.size, in1.fragIdx);
    Ok(in1.(blockSizes := words))
  }

  function ReadExtFileBody(fs: FS, c: Cursor, base: Inode): Result<Inode>
    requires fs.sb.blockSize > 0
  {
    var (b, c1) :- ReadBytes(fs, c, 40);
    var in1 := base.(blocksStart := U64(b[0..8]), size := U64(b[8..16]), fragIdx := U32(b[28..32]),
                     fragOffset := U32(b[32..36]), xattrIdx := U32(b[36..40]));
    var words :- ReadBlockList(fs, c1, in1.size, in1.fragIdx);
    Ok(in1.(blockSizes := words))
  }

  function ReadDirBody(fs: FS, c: Cursor, base: Inode): Result<Inode> {
    var (b, _) :- ReadBytes(fs, c, 16);
    Ok(base.(dirStartBlock := U32(b[0..4]), size := DirDataSize(U16(b[8..10])), dirOffset := U16(b[10..12])))
  }

  function ReadExtDirBody(fs: FS, c: Cursor, base: Inode): Result<Inode> {
    var (b, _) :- ReadBytes(fs, c, 24);
    Ok(base.(size := DirDataSize(U32(b[4..8])), dirStartBlock := U32(b[8..12]),
             dirOffset := U16(b[18..20]), xattrIdx := U32(b[20..24])))
  }

  function ReadSymlinkBody(fs: FS, c: Cursor, base: Inode): Result<Inode> {
    var (b, c1) :- ReadBytes(fs, c, 8);
    var n := U32(b[4..8]);
    if n > META_MAX then Err(Corrupt)
    else
      var (target, c2) :- ReadBytes(fs, c1, n);
      var in1 := base.(target := target, size := n);
      if base.itype == EXT_SYMLINK then
        var (xb, _) :- ReadBytes(fs, c2, 4);
        Ok(in1.(xattrIdx := U32(xb)))
      else
        Ok(in1)
  }

  /** The 16-byte header every inode starts with. */
  function ReadHeader(hdr: seq<Byte>): (r: Inode)
    requires |hdr| == 16
  {
    var t := U16(hdr[0..2]);
    Inode(t, Mode(U16(hdr[2..4]), t), U32(hdr[12..16]), 0, NO_XATTR, 0, 0, 0, [], 0, 0, [])
  }

  /** Where a reference into the inode table points: int64(start) + blockOff. */
  function TableOffset(start: nat, block: nat): int {
    I64(I64(start) + block)
  }

  /** What follows the header, by inode type. */
  function ReadBody(fs: FS, c: Cursor, in0: Inode): Result<Inode>
    requires fs.sb.blockSize > 0
  {
    if in0.itype == BASIC_DIR then ReadDirBody(fs, c, in0)
    else if in0.itype == EXT_DIR then ReadExtDirBody(fs, c, in0)
    else if in0.itype == BASIC_FILE then ReadFileBody(fs, c, in0)
    else if in0.itype == EXT_FILE then ReadExtFileBody(fs, c, in0)
    else if in0.itype == BASIC_SYMLINK || in0.itype == EXT_SYMLINK then ReadSymlinkBody(fs, c, in0)
    else if 4 <= in0.itype <= 7 || 11 <= in0.itype <= 14 then Ok(in0)
    else Err(Corrupt)
  }

  function ReadInode(fs: FS, ref: nat): Result<Inode>
    requires fs.sb.blockSize > 0
  {
    var c :- OpenCursor(fs, TableOffset(fs.sb.inodeTable, RefBlock(ref)), RefOffset(ref));
    var (hdr, c1) :- ReadBytes(fs, c, 16);
    ReadBody(fs, c1, ReadHeader(hdr))
  }

  /** A regular-file inode as decoding leaves it: the length of its block list is the count
      its size calls for. */
  predicate Decoded(in0: Inode, blockSize: nat) {
    && 0 < blockSize
    && in0.size < TWO_64
    && |in0.blockSizes| <= MAX_BLOCKS
    && |in0.blockSizes| == BlockCount(in0.size, blockSize, in0.fragIdx != INVALID_FRAG)
  }

  lemma FilesAreDecoded(fs: FS, ref: nat)
    requires fs.sb.blockSize > 0
    ensures var r := ReadInode(fs, ref);
            r.Ok? && r.value.IsRegular() ==> Decoded(r.value, fs.sb.blockSize)
  {
    hide ReadBytes, OpenCursor, BlockCount;
  }

  // ----- readBlockList: the chunked loop -----

  function WordsOf(b: seq<Byte>): (r: seq<nat>)
    requires |b| % 4 == 0
    ensures |r| == |b| / 4
  {
    if b == [] then [] else [U32(b[..4])] + WordsOf(b[4..])
  }

  lemma {:induction false} WordsSnoc(b: seq<Byte>, j: nat)
    requires |b| % 4 == 0 && 4 * j + 4 <= |b|
    ensures WordsOf(b[..4 * j + 4]) == WordsOf(b[..4 * j]) + [U32(b[4 * j..4 * j + 4])]
    decreases j
  {
    var long, short := b[..4 * j + 4], b[..4 * j];
    if j == 0 {
      assert short == [] && long[..4] == b[0..4] && long[4..] == [];
      assert WordsOf(long[4..]) == [];
    } else {
      WordsSnoc(b[4..], j - 1);
      assert long[..4] == short[..4];
      assert long[4..] == b[4..][..4 * (j - 1) + 4] && short[4..] == b[4..][..4 * (j - 1)];
      assert b[4..][4 * (j - 1)..4 * (j - 1) + 4] == b[4 * j..4 * j + 4];
    }
  }

  /** Reading 4k bytes and cutting them up is reading k words. */
  lemma {:induction false} WordsAreBytes(fs: FS, c: Cursor, k: nat)
    ensures ReadWords(fs, c, k) ==
            (var r := ReadBytes(fs, c, 4 * k);
             if r.Err? then Err(r.error) else Ok((WordsOf(r.value.0), r.value.1)))
    decreases k
  {
    hide ReadByte;
    if k == 0 {
      ReadNothing(fs, c);
    } else {
      ReadsAreAStream(fs, c, 4, 4 * (k - 1));
      var first := ReadBytes(fs, c, 4);
      if first.Ok? {
        WordsAreBytes(fs, first.value.1, k - 1);
        var rest := ReadBytes(fs, first.value.1, 4 * (k - 1));
        if rest.Ok? {
          var all := first.value.0 + rest.value.0;
          assert all[..4] == first.value.0 && all[4..] == rest.value.0;
        }
      }
    }
  }

  /** Word lists, like bytes, are a stream. */
  lemma {:induction false} WordsAreAStream(fs: FS, c: Cursor, a: nat, b: nat)
    ensures ReadWords(fs, c, a + b) ==
            (var first := ReadWords(fs, c, a);
             if first.Err? then Err(first.error)
             else
               var rest := ReadWords(fs, first.value.1, b);
               if rest.Err? then Err(rest.error)
               else Ok((first.value.0 + rest.value.0, rest.value.1)))
    decreases a
  {
    hide ReadBytes;
    if a == 0 {
      var r := ReadWords(fs, c, b);
      if r.Ok? {
        assert [] + r.value.0 == r.value.0;
      }
    } else {
      var head := ReadBytes(fs, c, 4);
      if head.Ok? {
        var c1 := head.value.1;
        WordsAreAStream(fs, c1, a - 1, b);
        var first := ReadWords(fs, c1, a - 1);
        if first.Ok? {
          var rest := ReadWords(fs, first.value.1, b);
          if rest.Ok? {
            assert [U32(head.value.0)] + (first.value.0 + rest.value.0) ==
                   ([U32(head.value.0)] + first.value.0) + rest.value.0;
          }
        }
      }
    }
  }

  lemma ReadNoWords(fs: FS, c: Cursor)
    ensures ReadWords(fs, c, 0) == Ok(([], c))
  {
  }

  method DecodeWords(buf: seq<Byte>) returns (words: seq<nat>)
    requires |buf| % 4 == 0
    ensures words == WordsOf(buf)
  {
    words := [];
    assert buf[..0] == [];
    for j := 0 to |buf| / 4
      invariant words == WordsOf(buf[..4 * j])
    {
      WordsSnoc(buf, j);
      words := words + [U32(buf[4 * j..4 * j + 4])];
    }
    assert buf[..|buf|] == buf;
  }

  const CHUNK: nat := 1024

  /** readBlockList's loop: chunks of up to 1024 words, the same list as word by word. */
  method ReadBlockWords(c: MetaCursor, n: nat) returns (r: Result<seq<nat>>)
    modifies c
    ensures var spec := ReadWords(c.fs, old(c.View()), n);
            if spec.Ok? then r == Ok(spec.value.0) && c.View() == spec.value.1 else r == Err(spec.error)
  {
    hide ReadBytes, ReadWords, WordsOf;
    ReadNoWords(c.fs, c.View());
    var words: seq<nat> := [];
    ghost var start := c.View();
    while |words| < n
      invariant |words| <= n
      invariant ReadWords(c.fs, start, |words|) == Ok((words, c.View()))
    {
      var k := Min(n - |words|, CHUNK);
      WordsAreAStream(c.fs, start, |words|, k);
      WordsAreAStream(c.fs, start, |words| + k, n - |words| - k);
      WordsAreBytes(c.fs, c.View(), k);
      var buf, _ := c.ReadN(4 * k);
      if buf.Err? {
        return Err(buf.error);
      }
      var chunk := DecodeWords(buf.value);
      words := words + chunk;
    }
    return Ok(words);
  }

  // ----- The size a file declares -----

  /** When the rounding addition wraps, no block is left and the size is far out of reach. */
  lemma WrappedSizeHasNoBlocks(size: nat, blockSize: nat)
    requires 0 < blockSize < TWO_32 && size < TWO_64 && size + blockSize - 1 >= TWO_64
    ensures BlockCount(size, blockSize, false) == 0 && size > blockSize
  {
    var wrapped := (size + blockSize - 1) % TWO_64;
    WrapsOnce(size + blockSize - 1);
    SmallQuotient(wrapped, blockSize);
  }

  lemma WrapsOnce(total: nat)
    requires TWO_64 <= total < 2 * TWO_64
    ensures total % TWO_64 == total - TWO_64
  {
  }

  lemma SmallQuotient(n: nat, d: nat)
    requires n < d
    ensures n / d == 0
  {
  }
}
