/** Data blocks, fragments and the contents of a file (data.go). */
module Data {
  import opened Bytes
  import opened Codecs
  import opened Metadata
  import opened Inodes

  const UNCOMPRESSED_BIT: nat := 0x100_0000

  predicate IsRaw(word: nat) {
    word / UNCOMPRESSED_BIT % 2 == 1
  }

  /** blockOnDiskBytes: the word with bit 24 cleared; the bits above it stay. */
  function OnDisk(word: nat): nat {
    if IsRaw(word) then word - UNCOMPRESSED_BIT else word
  }

  predicate ExtentOk(fs: FS, off: int, n: nat) {
    fs.size <= 0 || 0 <= off <= fs.size - n
  }

  /** readBlock without the cache. */
  function ReadBlock(fs: FS, off: int, word: nat): Result<seq<Byte>> {
    var n := OnDisk(word);
    if n == 0 then Ok([])
    else if n > fs.sb.blockSize || !ExtentOk(fs, off, n) then Err(Corrupt)
    else
      var raw :- ReadRaw(fs.image, off, n);
      Unpack(fs.codec, Kept(raw, !IsRaw(word)), fs.sb.blockSize)
  }

  // ----- Fragments -----

  datatype FragEntry = FragEntry(start: nat, word: nat)

  const FRAG_ENTRY: nat := 16
  const FRAGS_PER_BLOCK: nat := 512

  function ReadFragmentEntry(fs: FS, idx: nat): Result<FragEntry> {
    if idx >= fs.sb.fragCount then Err(Corrupt)
    else
      var ptr :- ReadRaw(fs.image, I64(I64(fs.sb.fragTable) + idx / FRAGS_PER_BLOCK * 8), 8);
      var e :- ReadMetaBlock(fs, I64(U64(ptr)));
      var o := idx % FRAGS_PER_BLOCK * FRAG_ENTRY;
      if o + FRAG_ENTRY > |e.data| then Err(Corrupt)
      else Ok(FragEntry(U64(e.data[o..o + 8]), U32(e.data[o + 8..o + 12])))
  }

  function ReadFragment(fs: FS, idx: nat): Result<seq<Byte>> {
    var fe :- ReadFragmentEntry(fs, idx);
    ReadBlock(fs, I64(fe.start), fe.word)
  }

  // ----- The contents of a file, block by block -----

  function Zeros(n: nat): (z: seq<Byte>)
    ensures |z| == n && forall i :: 0 <= i < n ==> z[i] == 0
  {
    seq(n, _ => 0)
  }

  /** The offset reached after some blocks: a running sum in int64. */
  function OffsetAfter(start: int, words: seq<nat>): int {
    if words == [] then start
    else I64(OffsetAfter(start, words[..|words| - 1]) + OnDisk(words[|words| - 1]))
  }

  function BlockOffset(in0: Inode, i: nat): int
    requires i <= |in0.blockSizes|
  {
    OffsetAfter(I64(in0.blocksStart), in0.blockSizes[..i])
  }

  /** The bytes of the file from logical block i on. */
  function Remaining(fs: FS, in0: Inode, i: nat): nat {
    if i * fs.sb.blockSize <= in0.size then in0.size - i * fs.sb.blockSize else 0
  }

  /** The length of logical block i: a full block, or the file's tail. */
  function Logical(fs: FS, in0: Inode, i: nat): nat {
    Min(fs.sb.blockSize, Remaining(fs, in0, i))
  }

  /** What logical block i contributes. */
  function Part(fs: FS, in0: Inode, i: nat): (r: Result<seq<Byte>>)
    requires i < |in0.blockSizes|
    ensures r.Ok? ==> |r.value| == Logical(fs, in0, i)
  {
    var word := in0.blockSizes[i];
    if OnDisk(word) == 0 then Ok(Zeros(Logical(fs, in0, i)))
    else
      var data :- ReadBlock(fs, BlockOffset(in0, i), word);
      if |data| < Logical(fs, in0, i) then Err(Corrupt) else Ok(data[..Logical(fs, in0, i)])
  }

  /** The first i blocks, or the error of the first block that cannot be read. */
  function Parts(fs: FS, in0: Inode, i: nat): Result<seq<Byte>>
    requires i <= |in0.blockSizes|
  {
    if i == 0 then Ok([])
    else
      var before :- Parts(fs, in0, i - 1);
      var part :- Part(fs, in0, i - 1);
      Ok(before + part)
  }

  /** The tail packed into a shared fragment block, if there is one. */
  function Tail(fs: FS, in0: Inode): Result<seq<Byte>> {
    var left := Remaining(fs, in0, |in0.blockSizes|);
    if in0.fragIdx == INVALID_FRAG || left == 0 then Ok([])
    else
      var frag :- ReadFragment(fs, in0.fragIdx);
      if in0.fragOffset + left > |frag| then Err(Corrupt)
      else Ok(frag[in0.fragOffset..in0.fragOffset + left])
  }

  /** The most bytes the block list and one fragment can supply, in uint64. */
  function MaxBytes(fs: FS, in0: Inode): nat {
    (|in0.blockSizes| + 1) * fs.sb.blockSize % TWO_64
  }

  predicate StoredExtentOk(fs: FS, in0: Inode, i: nat)
    requires i < |in0.blockSizes|
  {
    var n := OnDisk(in0.blockSizes[i]);
    n == 0 || (n <= fs.sb.blockSize && ExtentOk(fs, BlockOffset(in0, i), n))
  }

  /** readFileLimit, stated by block index; max < 0 means no ceiling. */
  function FileContents(fs: FS, in0: Inode, max: int): Result<seq<Byte>> {
    if in0.size > MaxBytes(fs, in0) then Err(Corrupt)
    else if max >= 0 && in0.size > max then Err(TooLarge)
    else if exists i :: 0 <= i < |in0.blockSizes| && !StoredExtentOk(fs, in0, i) then Err(Corrupt)
    else
      var body :- Parts(fs, in0, |in0.blockSizes|);
      var tail :- Tail(fs, in0);
      if |body + tail| != in0.size then Err(Corrupt) else Ok(body + tail)
  }

  /** The ceiling refuses exactly the larger files and changes nothing else. */
  lemma CeilingRefusesLarger(fs: FS, in0: Inode, max: nat)
    requires in0.size <= MaxBytes(fs, in0)
    ensures in0.size > max ==> FileContents(fs, in0, max) == Err(TooLarge)
    ensures in0.size <= max ==> FileContents(fs, in0, max) == FileContents(fs, in0, -1)
  {
  }

  lemma OffsetSteps(in0: Inode, i: nat)
    requires i < |in0.blockSizes|
    ensures BlockOffset(in0, i + 1) == I64(BlockOffset(in0, i) + OnDisk(in0.blockSizes[i]))
  {
    var words := in0.blockSizes[..i + 1];
    assert words[..|words| - 1] == in0.blockSizes[..i];
  }

  lemma RemainingSteps(fs: FS, in0: Inode, i: nat)
    ensures Remaining(fs, in0, i + 1) == Remaining(fs, in0, i) - Logical(fs, in0, i)
  {
    assert (i + 1) * fs.sb.blockSize == i * fs.sb.blockSize + fs.sb.blockSize;
  }

  lemma OffsetIsI64(in0: Inode, i: nat)
    requires i <= |in0.blockSizes|
    ensures I64(BlockOffset(in0, i)) == BlockOffset(in0, i)
  {
  }

  /** readFileLimit as the source runs it: an extent scan, then an assembly loop over running
      offsets and a remaining count. */
  method ReadFileLimit(fs: FS, in0: Inode, max: int) returns (r: Result<seq<Byte>>)
    ensures r == FileContents(fs, in0, max)
  {
    hide ReadBlock, ReadFragment, OffsetAfter, I64;
    var blockSize := fs.sb.blockSize;
    var count := |in0.blockSizes|;
    var off := I64(in0.blocksStart);
    var remaining := in0.size;
    if in0.size > (count + 1) * blockSize % TWO_64 {
      return Err(Corrupt);
    }
    if max >= 0 && in0.size > max {
      return Err(TooLarge);
    }
    OffsetStart(in0);
    var cur := off;
    for i := 0 to count
      invariant cur == BlockOffset(in0, i)
      invariant forall j :: 0 <= j < i ==> StoredExtentOk(fs, in0, j)
    {
      var n := OnDisk(in0.blockSizes[i]);
      OffsetSteps(in0, i);
      if n == 0 {
        OffsetIsI64(in0, i);
        continue;
      }
      if n > blockSize || !ExtentOk(fs, cur, n) {
        assert !StoredExtentOk(fs, in0, i);
        return Err(Corrupt);
      }
      cur := I64(cur + n);
    }
    var out: seq<Byte> := [];
    for i := 0 to count
      invariant off == BlockOffset(in0, i)
      invariant remaining == Remaining(fs, in0, i)
      invariant Parts(fs, in0, i) == Ok(out)
    {
      var word := in0.blockSizes[i];
      var want := if remaining < blockSize then remaining else blockSize;
      var n := OnDisk(word);
      OffsetSteps(in0, i);
      RemainingSteps(fs, in0, i);
      if n == 0 {
        OffsetIsI64(in0, i);
        out := out + Zeros(want);
      } else {
        var data := ReadBlock(fs, off, word);
        if data.Err? {
          PartsFailEarly(fs, in0, i + 1, count);
          return Err(data.error);
        }
        if |data.value| < want {
          PartsFailEarly(fs, in0, i + 1, count);
          return Err(Corrupt);
        }
        out := out + data.value[..want];
        off := I64(off + n);
      }
      remaining := remaining - want;
    }
    var tail: seq<Byte> := [];
    if in0.fragIdx != INVALID_FRAG && remaining > 0 {
      var frag := ReadFragment(fs, in0.fragIdx);
      if frag.Err? {
        return Err(frag.error);
      }
      var end := in0.fragOffset + remaining;
      if end > |frag.value| {
        return Err(Corrupt);
      }
      tail := frag.value[in0.fragOffset..end];
    }
    out := out + tail;
    if |out| != in0.size {
      return Err(Corrupt);
    }
    return Ok(out);
  }

  lemma OffsetStart(in0: Inode)
    ensures BlockOffset(in0, 0) == I64(in0.blocksStart)
  {
  }

  lemma {:induction false} PartsFailEarly(fs: FS, in0: Inode, i: nat, n: nat)
    requires i <= n <= |in0.blockSizes| && Parts(fs, in0, i).Err?
    ensures Parts(fs, in0, n) == Parts(fs, in0, i)
    decreases n
  {
    hide Part;
    if i < n {
      PartsFailEarly(fs, in0, i, n - 1);
    }
  }
}
