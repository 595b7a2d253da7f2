/** Random access to a file (openfile.go) and its agreement with the whole-file read. */
module OpenFiles {
  import opened Bytes
  import opened Metadata
  import opened Inodes
  import opened Data

  // ----- One byte of a file: the common reference of both readers -----

  lemma MulLe(a: nat, c: nat, b: nat)
    requires a <= c
    ensures a * b <= c * b
  {
  }

  lemma ByteOfBlock(k: nat, b: nat)
    requires b > 0
    ensures k == k / b * b + k % b && 0 <= k % b < b
  {
  }

  /** Byte k lies in block i: quotient and remainder. */
  lemma BlockOfByte(k: nat, b: nat, i: nat)
    requires b > 0 && i * b <= k < i * b + b
    ensures k / b == i && k % b == k - i * b
  {
    ByteOfBlock(k, b);
    var q := k / b;
    assert q <= i ==> q == i || (q + 1) * b <= i * b;
    assert i <= q ==> i == q || (i + 1) * b <= q * b;
    assert (q + 1) * b == q * b + b && (i + 1) * b == i * b + b;
  }

  lemma PastTheBlocks(b: nat, count: nat, k: nat)
    requires b > 0
    ensures count * b <= k <==> count <= k / b
  {
    ByteOfBlock(k, b);
    var q := k / b;
    assert (q + 1) * b == q * b + b;
    assert count >= q + 1 ==> count * b >= (q + 1) * b;
    assert count <= q ==> count * b <= q * b;
  }

  function TailByte(fs: FS, in0: Inode, k: nat): Result<Byte>
    requires |in0.blockSizes| * fs.sb.blockSize <= k < in0.size
  {
    if in0.fragIdx == INVALID_FRAG then Err(Corrupt)
    else
      var frag :- ReadFragment(fs, in0.fragIdx);
      var tailStart := |in0.blockSizes| * fs.sb.blockSize;
      if in0.fragOffset + (in0.size - tailStart) > |frag| then Err(Corrupt)
      else Ok(frag[in0.fragOffset + (k - tailStart)])
  }

  /** Byte k of a file: out of its own logical block, or out of the tail fragment. */
  function FileByte(fs: FS, in0: Inode, k: nat): Result<Byte>
    requires fs.sb.blockSize > 0 && k < in0.size
  {
    var i := k / fs.sb.blockSize;
    ByteOfBlock(k, fs.sb.blockSize);
    if i < |in0.blockSizes| then
      var part :- Part(fs, in0, i);
      Ok(part[k % fs.sb.blockSize])
    else
      assert |in0.blockSizes| * fs.sb.blockSize <= i * fs.sb.blockSize;
      TailByte(fs, in0, k)
  }

  lemma FileByteInTail(fs: FS, in0: Inode, k: nat)
    requires fs.sb.blockSize > 0 && |in0.blockSizes| * fs.sb.blockSize <= k < in0.size
    ensures FileByte(fs, in0, k) == TailByte(fs, in0, k)
  {
    hide Part, TailByte;
    PastTheBlocks(fs.sb.blockSize, |in0.blockSizes|, k);
  }

  lemma FileByteInBlock(fs: FS, in0: Inode, i: nat, k: nat)
    requires fs.sb.blockSize > 0 && i < |in0.blockSizes| && k < in0.size
    requires i * fs.sb.blockSize <= k < i * fs.sb.blockSize + fs.sb.blockSize
    ensures Part(fs, in0, i).Err? ==> FileByte(fs, in0, k) == Err(Part(fs, in0, i).error)
    ensures Part(fs, in0, i).Ok? ==>
              && k - i * fs.sb.blockSize < |Part(fs, in0, i).value|
              && FileByte(fs, in0, k) == Ok(Part(fs, in0, i).value[k - i * fs.sb.blockSize])
  {
    hide Part, TailByte;
    BlockOfByte(k, fs.sb.blockSize, i);
  }

  /** The bytes of the first i blocks are the bytes of those blocks. */
  lemma {:induction false} PartsByBytes(fs: FS, in0: Inode, i: nat)
    requires fs.sb.blockSize > 0 && i <= |in0.blockSizes|
    ensures Parts(fs, in0, i).Ok? <==> forall j :: 0 <= j < i ==> Part(fs, in0, j).Ok?
    ensures Parts(fs, in0, i).Ok? ==>
              && |Parts(fs, in0, i).value| == in0.size - Remaining(fs, in0, i)
              && forall k :: 0 <= k < |Parts(fs, in0, i).value| ==>
                   FileByte(fs, in0, k) == Ok(Parts(fs, in0, i).value[k])
    decreases i
  {
    hide Part, TailByte, FileByte;
    if i > 0 {
      PartsByBytes(fs, in0, i - 1);
      RemainingSteps(fs, in0, i - 1);
      if Parts(fs, in0, i).Ok? {
        var before, whole := Parts(fs, in0, i - 1).value, Parts(fs, in0, i).value;
        forall k | 0 <= k < |whole|
          ensures FileByte(fs, in0, k) == Ok(whole[k])
        {
          if k >= |before| {
            FileByteInBlock(fs, in0, i - 1, k);
          }
        }
      }
    }
  }

  /** What decoding says about the number of blocks: without a fragment they cover the file
      unless the rounding wrapped, with one they are the full blocks. */
  lemma DecodedCount(fs: FS, in0: Inode)
    requires Decoded(in0, fs.sb.blockSize) && fs.sb.blockSize <= 0x10_0000
    ensures forall i :: 0 <= i < |in0.blockSizes| ==> i * fs.sb.blockSize < in0.size
    ensures MaxBytes(fs, in0) == (|in0.blockSizes| + 1) * fs.sb.blockSize
    ensures if in0.fragIdx != INVALID_FRAG || in0.size + fs.sb.blockSize - 1 < TWO_64
            then in0.size <= MaxBytes(fs, in0)
            else |in0.blockSizes| == 0 && in0.size > MaxBytes(fs, in0)
    ensures in0.fragIdx == INVALID_FRAG && in0.size + fs.sb.blockSize - 1 < TWO_64 ==>
              Remaining(fs, in0, |in0.blockSizes|) == 0
  {
    hide BlockCount;
    CountFacts(in0.size, fs.sb.blockSize, in0.fragIdx != INVALID_FRAG, |in0.blockSizes|);
    BlocksStartInside(in0.size, fs.sb.blockSize, |in0.blockSizes|);
  }

  lemma CountFacts(size: nat, b: nat, hasFrag: bool, count: nat)
    requires 0 < b <= 0x10_0000 && size < TWO_64
    requires count == BlockCount(size, b, hasFrag) && count <= MAX_BLOCKS
    ensures (count + 1) * b == count * b + b < TWO_64
    ensures hasFrag ==> count * b <= size < count * b + b
    ensures !hasFrag && size + b - 1 < TWO_64 ==> size <= count * b < size + b
    ensures !hasFrag && size + b - 1 >= TWO_64 ==> count == 0 && size > b
  {
    hide I64;
    if hasFrag {
      CountOfTotal(size, b, count);
    } else if size + b - 1 >= TWO_64 {
      WrappedSizeHasNoBlocks(size, b);
    } else {
      CountOfTotal(size + b - 1, b, count);
    }
  }

  lemma BlocksStartInside(size: nat, b: nat, count: nat)
    requires count == 0 || count * b < size + b
    ensures forall i :: 0 <= i < count ==> i * b < size
  {
    forall i | 0 <= i < count
      ensures i * b < size
    {
      MulLe(i + 1, count, b);
      assert (i + 1) * b == i * b + b;
    }
  }

  lemma CountOfTotal(total: nat, b: nat, count: nat)
    requires 0 < b <= 0x10_0000 && total < TWO_64 && count == I64(total / b) && count <= MAX_BLOCKS
    ensures count * b <= total < count * b + b
    ensures (count + 1) * b == count * b + b < TWO_64
  {
    hide I64;
    var q := total / b;
    ByteOfBlock(total, b);
    MulLe(1, b, q);
    NonNegativeI64(q);
    MulLe(b, 0x10_0000, count);
  }

  lemma NonNegativeI64(x: nat)
    requires x < TWO_64 && I64(x) >= 0
    ensures I64(x) == x
  {
  }

  lemma ReadablePartsHaveExtents(fs: FS, in0: Inode, i: nat)
    requires i < |in0.blockSizes| && Part(fs, in0, i).Ok?
    ensures StoredExtentOk(fs, in0, i)
  {
  }

  /** The whole-file read succeeds with C exactly when C has the declared size and every byte
      of the file is readable and is the one in C. */
  lemma WholeFileByBytes(fs: FS, in0: Inode, content: seq<Byte>)
    requires Decoded(in0, fs.sb.blockSize) && fs.sb.blockSize <= 0x10_0000
    ensures FileContents(fs, in0, -1) == Ok(content) <==>
            && |content| == in0.size
            && forall k :: 0 <= k < in0.size ==> FileByte(fs, in0, k) == Ok(content[k])
  {
    if FileContents(fs, in0, -1) == Ok(content) {
      ContentsToBytes(fs, in0, content);
    }
    if |content| == in0.size && forall k :: 0 <= k < in0.size ==> FileByte(fs, in0, k) == Ok(content[k]) {
      BytesToContents(fs, in0, content);
    }
  }

  lemma ContentsToBytes(fs: FS, in0: Inode, content: seq<Byte>)
    requires Decoded(in0, fs.sb.blockSize) && fs.sb.blockSize <= 0x10_0000
    requires FileContents(fs, in0, -1) == Ok(content)
    ensures |content| == in0.size
    ensures forall k :: 0 <= k < in0.size ==> FileByte(fs, in0, k) == Ok(content[k])
  {
    hide Part, FileByte, StoredExtentOk, BlockCount, ReadFragment, MaxBytes;
    var b, count := fs.sb.blockSize, |in0.blockSizes|;
    PartsByBytes(fs, in0, count);
    var body := Parts(fs, in0, count).value;
    forall k | 0 <= k < in0.size
      ensures FileByte(fs, in0, k) == Ok(content[k])
    {
      if k >= |body| {
        FileByteInTail(fs, in0, k);
      }
    }
  }

  lemma BytesToContents(fs: FS, in0: Inode, content: seq<Byte>)
    requires Decoded(in0, fs.sb.blockSize) && fs.sb.blockSize <= 0x10_0000
    requires |content| == in0.size
    requires forall k :: 0 <= k < in0.size ==> FileByte(fs, in0, k) == Ok(content[k])
    ensures FileContents(fs, in0, -1) == Ok(content)
  {
    hide Part, FileByte, StoredExtentOk, BlockCount, ReadFragment, MaxBytes;
    var b, count := fs.sb.blockSize, |in0.blockSizes|;
    DecodedCount(fs, in0);
    forall i | 0 <= i < count
      ensures Part(fs, in0, i).Ok? && StoredExtentOk(fs, in0, i)
    {
      FileByteInBlock(fs, in0, i, i * b);
      ReadablePartsHaveExtents(fs, in0, i);
    }
    PartsByBytes(fs, in0, count);
    if Remaining(fs, in0, count) > 0 {
      FileByteInTail(fs, in0, count * b);
      assert Tail(fs, in0).Ok? && in0.fragIdx != INVALID_FRAG;
    }
    assert in0.size <= MaxBytes(fs, in0) by {
      if in0.size > 0 {
        assert FileByte(fs, in0, 0).Ok?;
        if count == 0 {
          FileByteInTail(fs, in0, 0);
        }
      }
    }
    var r := FileContents(fs, in0, -1);
    assert r.Ok?;
    ContentsToBytes(fs, in0, r.value);
    assert r.value == content by {
      forall k | 0 <= k < in0.size
        ensures content[k] == r.value[k]
      {
        assert FileByte(fs, in0, k) == Ok(content[k]) == Ok(r.value[k]);
      }
    }
  }

  /** ... and fails with the error of the first byte that cannot be read, once the size is in
      reach and every block lies in the image. */
  lemma WholeFileFails(fs: FS, in0: Inode, k: nat, e: Error)
    requires Decoded(in0, fs.sb.blockSize) && fs.sb.blockSize <= 0x10_0000 && in0.size <= MaxBytes(fs, in0)
    requires forall i :: 0 <= i < |in0.blockSizes| ==> StoredExtentOk(fs, in0, i)
    requires k < in0.size && FileByte(fs, in0, k) == Err(e) && forall j :: 0 <= j < k ==> FileByte(fs, in0, j).Ok?
    ensures FileContents(fs, in0, -1) == Err(e)
  {
    hide Part, FileByte, StoredExtentOk, BlockCount, ReadFragment, MaxBytes, Parts, Tail;
    var b, count := fs.sb.blockSize, |in0.blockSizes|;
    PastTheBlocks(b, count, k);
    if k < count * b {
      PartFails(fs, in0, k, e);
    } else {
      BlocksBefore(fs, in0, count, k);
      PartsByBytes(fs, in0, count);
      TailFails(fs, in0, k, e);
    }
  }

  /** Blocks that end before an offset up to which all can be read, can be read. */
  lemma BlocksBefore(fs: FS, in0: Inode, i: nat, k: nat)
    requires fs.sb.blockSize > 0 && i <= |in0.blockSizes| && i * fs.sb.blockSize <= k < in0.size
    requires forall j :: 0 <= j < k ==> FileByte(fs, in0, j).Ok?
    ensures forall j :: 0 <= j < i ==> Part(fs, in0, j).Ok?
  {
    hide Part, FileByte;
    var b := fs.sb.blockSize;
    forall j | 0 <= j < i
      ensures Part(fs, in0, j).Ok?
    {
      MulLe(j + 1, i, b);
      assert (j + 1) * b == j * b + b;
      FileByteInBlock(fs, in0, j, j * b);
    }
  }

  lemma PartFails(fs: FS, in0: Inode, k: nat, e: Error)
    requires fs.sb.blockSize > 0 && k < in0.size && k < |in0.blockSizes| * fs.sb.blockSize
    requires FileByte(fs, in0, k) == Err(e) && forall j :: 0 <= j < k ==> FileByte(fs, in0, j).Ok?
    ensures Parts(fs, in0, |in0.blockSizes|) == Err(e)
  {
    hide Part, FileByte;
    var b, count := fs.sb.blockSize, |in0.blockSizes|;
    var i := k / b;
    ByteOfBlock(k, b);
    PastTheBlocks(b, count, k);
    BlocksBefore(fs, in0, i, k);
    PartsByBytes(fs, in0, i);
    FileByteInBlock(fs, in0, i, k);
    assert Parts(fs, in0, i + 1) == Err(e);
    PartsFailEarly(fs, in0, i + 1, count);
  }

  lemma TailFails(fs: FS, in0: Inode, k: nat, e: Error)
    requires fs.sb.blockSize > 0 && |in0.blockSizes| * fs.sb.blockSize <= k < in0.size
    requires FileByte(fs, in0, k) == Err(e)
    ensures if in0.fragIdx != INVALID_FRAG then Tail(fs, in0) == Err(e)
            else Tail(fs, in0) == Ok([]) && e == Corrupt && Remaining(fs, in0, |in0.blockSizes|) > 0
  {
    hide ReadFragment, FileByte;
    FileByteInTail(fs, in0, k);
  }

  /** A size out of reach, or a stored block that is larger than the block size or not in the
      image, is corrupt whatever else can be read. */
  lemma BadExtents(fs: FS, in0: Inode, i: nat, max: int)
    ensures in0.size > (|in0.blockSizes| + 1) * fs.sb.blockSize % TWO_64 ==> FileContents(fs, in0, max) == Err(Corrupt)
    ensures i < |in0.blockSizes| && in0.size <= MaxBytes(fs, in0) && (max < 0 || in0.size <= max) ==>
              var n, off := OnDisk(in0.blockSizes[i]), BlockOffset(in0, i);
              n > 0 && (n > fs.sb.blockSize || (fs.size > 0 && (off < 0 || off + n > fs.size))) ==>
                FileContents(fs, in0, max) == Err(Corrupt)
  {
    hide BlockOffset, OnDisk, Parts, Tail;
    if i < |in0.blockSizes| {
      assert StoredExtentOk(fs, in0, i) || !StoredExtentOk(fs, in0, i);
    }
  }

  // ----- newFile and ReadAt -----

  /** squashfsFile: every field is written once, when the file is accepted. */
  datatype OpenedFile = OpenedFile(
    fs: FS, offsets: seq<int>, words: seq<nat>, fragIdx: nat, fragOffset: nat, size: nat, blockSize: nat)

  /** The map of an opened file is the one its inode calls for. */
  predicate Opens(f: OpenedFile, in0: Inode) {
    && f.words == in0.blockSizes && |f.offsets| == |f.words|
    && (forall i :: 0 <= i < |f.offsets| ==> f.offsets[i] == BlockOffset(in0, i))
    && f.fragIdx == in0.fragIdx && f.fragOffset == in0.fragOffset
    && f.size == in0.size && f.blockSize == f.fs.sb.blockSize
  }

  /** newFile: refuses a size out of reach, else computes the prefix sum of the block list. */
  method NewFile(fs: FS, in0: Inode) returns (r: Result<OpenedFile>)
    ensures in0.size > MaxBytes(fs, in0) ==> r == Err(Corrupt)
    ensures in0.size <= MaxBytes(fs, in0) ==> r.Ok? && r.value.fs == fs && Opens(r.value, in0)
  {
    hide I64, OffsetAfter, OnDisk;
    var count := |in0.blockSizes|;
    if in0.size > (count + 1) * fs.sb.blockSize % TWO_64 {
      return Err(Corrupt);
    }
    var offsets: seq<int>, words: seq<nat> := [], [];
    var off := I64(in0.blocksStart);
    OffsetStart(in0);
    for i := 0 to count
      invariant off == BlockOffset(in0, i)
      invariant |offsets| == i && words == in0.blockSizes[..i]
      invariant forall j :: 0 <= j < i ==> offsets[j] == BlockOffset(in0, j)
    {
      OffsetSteps(in0, i);
      offsets := offsets + [off];
      words := words + [in0.blockSizes[i]];
      off := I64(off + OnDisk(in0.blockSizes[i]));
    }
    assert words == in0.blockSizes;
    return Ok(OpenedFile(fs, offsets, words, in0.fragIdx, in0.fragOffset, in0.size, fs.sb.blockSize));
  }

  /** The error a ReadAt ends with; Done is a nil error. */
  datatype Outcome = Done | EOF | NegativeOffset | Failed(error: Error)

  /** readFragmentInto: the bytes for `want` bytes of the file from offset cur on. */
  function FragmentSlice(f: OpenedFile, cur: nat, want: nat): Result<seq<Byte>>
    requires |f.offsets| * f.blockSize <= cur && cur + want <= f.size
  {
    if f.fragIdx == INVALID_FRAG then Err(Corrupt)
    else
      var frag :- ReadFragment(f.fs, f.fragIdx);
      var tailStart := |f.offsets| * f.blockSize;
      var start := f.fragOffset + (cur - tailStart);
      if f.fragOffset + (f.size - tailStart) > |frag| then Err(Corrupt)
      else Ok(frag[start..start + want])
  }

  /** Every byte of the file from k to k + n is readable, and they are `bytes`. */
  ghost predicate BytesAre(fs: FS, in0: Inode, k: nat, bytes: seq<Byte>) {
    fs.sb.blockSize > 0 && k + |bytes| <= in0.size &&
    forall i :: k <= i < k + |bytes| ==> FileByte(fs, in0, i) == Ok(bytes[i - k])
  }

  lemma FragmentSliceBytes(f: OpenedFile, in0: Inode, cur: nat, want: nat)
    requires Opens(f, in0) && f.blockSize > 0
    requires |f.offsets| * f.blockSize <= cur && 0 < want && cur + want <= f.size
    ensures var r := FragmentSlice(f, cur, want);
            if r.Ok? then |r.value| == want && BytesAre(f.fs, in0, cur, r.value)
            else FileByte(f.fs, in0, cur) == Err(r.error)
  {
    hide ReadFragment, FileByte, BlockOffset;
    forall k | cur <= k < cur + want
      ensures FileByte(f.fs, in0, k) == TailByte(f.fs, in0, k)
    {
      FileByteInTail(f.fs, in0, k);
    }
  }

  /** What one iteration of ReadAt copies from logical block idx, which starts at offset
      `start` of the file: `want` bytes from `within` on. */
  function BlockSlice(f: OpenedFile, idx: nat, start: nat, within: nat, want: nat): (r: Result<seq<Byte>>)
    requires idx < |f.offsets| == |f.words|
    requires start + within + want <= f.size && within + want <= f.blockSize
    ensures r.Ok? ==> |r.value| == want
  {
    var logical := Min(f.blockSize, f.size - start);
    if OnDisk(f.words[idx]) == 0 then Ok(Zeros(want))
    else
      var data :- ReadBlock(f.fs, f.offsets[idx], f.words[idx]);
      if |data| < logical then Err(Corrupt) else Ok(data[within..within + want])
  }

  lemma BlockSliceBytes(f: OpenedFile, in0: Inode, idx: nat, start: nat, within: nat, want: nat)
    requires Opens(f, in0) && f.blockSize > 0
    requires idx < |f.offsets| && start == idx * f.blockSize && 0 < want
    requires start + within + want <= f.size && within + want <= f.blockSize
    ensures var r := BlockSlice(f, idx, start, within, want);
            if r.Ok? then BytesAre(f.fs, in0, start + within, r.value)
            else FileByte(f.fs, in0, start + within) == Err(r.error)
  {
    hide ReadBlock, FileByte, BlockOffset;
    forall k | start + within <= k < start + within + want
      ensures var part := Part(f.fs, in0, idx);
              if part.Err? then FileByte(f.fs, in0, k) == Err(part.error)
              else |part.value| > k - start && FileByte(f.fs, in0, k) == Ok(part.value[k - start])
    {
      hide Part;
      FileByteInBlock(f.fs, in0, idx, k);
    }
  }

  /** The logical block an offset falls into, and where in it. */
  method Locate(cur: nat, blockSize: nat, count: nat) returns (idx: nat, within: nat)
    requires blockSize > 0
    ensures cur - within == idx * blockSize && within < blockSize
    ensures idx >= count <==> count * blockSize <= cur
  {
    idx, within := cur / blockSize, cur % blockSize;
    ByteOfBlock(cur, blockSize);
    PastTheBlocks(blockSize, count, cur);
  }

  /** The body of ReadAt's loop: the logical block or the fragment that offset cur falls into
      yields at least one of the wanted bytes, or the error of that very byte. */
  method Fetch(f: OpenedFile, ghost in0: Inode, cur: nat, most: nat) returns (slice: Result<seq<Byte>>)
    requires Opens(f, in0) && f.blockSize > 0
    requires 0 < most && cur + most <= f.size
    ensures slice.Ok? ==> 0 < |slice.value| <= most && BytesAre(f.fs, in0, cur, slice.value)
    ensures slice.Err? ==> FileByte(f.fs, in0, cur) == Err(slice.error)
  {
    hide FragmentSlice, BlockSlice, FileByte, BytesAre, BlockOffset;
    var idx, within := Locate(cur, f.blockSize, |f.offsets|);
    if idx >= |f.offsets| {
      FragmentSliceBytes(f, in0, cur, most);
      slice := FragmentSlice(f, cur, most);
    } else {
      var want := Min(most, f.blockSize - within);
      BlockSliceBytes(f, in0, idx, cur - within, within, want);
      slice := BlockSlice(f, idx, cur - within, within, want);
    }
  }

  /** ReadAt fills p with the bytes of the file from off on, up to the end of p, the end of
      the file, or the first byte that cannot be read, and says which. */
  method ReadAt(f: OpenedFile, ghost in0: Inode, p: array<Byte>, off: int) returns (n: nat, err: Outcome)
    requires Opens(f, in0) && f.blockSize > 0
    modifies p
    ensures n <= p.Length
    ensures off < 0 ==> n == 0 && err == NegativeOffset
    ensures off >= f.size ==> n == 0 && err == EOF
    ensures 0 <= off < f.size ==> BytesAre(f.fs, in0, off, p[..n])
    ensures 0 <= off < f.size ==> (err == Done <==> n == p.Length)
    ensures 0 <= off < f.size && err == EOF ==> off + n == f.size
    ensures 0 <= off < f.size && err.Failed? ==>
              off + n < f.size && FileByte(f.fs, in0, off + n) == Err(err.error)
    ensures err == NegativeOffset ==> off < 0
    ensures p[n..] == old(p[n..])
  {
    hide FileByte, Opens;
    if off < 0 {
      return 0, NegativeOffset;
    }
    if off >= f.size {
      return 0, EOF;
    }
    OpensLengths(f, in0);
    n := 0;
    while n < p.Length
      invariant 0 <= n <= p.Length && off + n <= f.size
      invariant BytesAre(f.fs, in0, off, p[..n])
      invariant p[n..] == old(p[n..])
      decreases p.Length - n
    {
      var cur := off + n;
      if cur >= f.size {
        return n, EOF;
      }
      var slice := Fetch(f, in0, cur, Min(p.Length - n, f.size - cur));
      if slice.Err? {
        return n, Failed(slice.error);
      }
      BytesJoin(f.fs, in0, off, p[..n], slice.value);
      n := CopyInto(p, n, slice.value);
    }
    return n, Done;
  }

  lemma OpensLengths(f: OpenedFile, in0: Inode)
    requires Opens(f, in0)
    ensures |f.offsets| == |f.words| && f.size == in0.size && f.blockSize == f.fs.sb.blockSize
  {
  }

  lemma BytesJoin(fs: FS, in0: Inode, k: nat, a: seq<Byte>, b: seq<Byte>)
    requires BytesAre(fs, in0, k, a) && BytesAre(fs, in0, k + |a|, b)
    ensures BytesAre(fs, in0, k, a + b)
  {
    hide FileByte;
  }

  method CopyInto(p: array<Byte>, n: nat, bytes: seq<Byte>) returns (m: nat)
    requires n + |bytes| <= p.Length
    modifies p
    ensures m == n + |bytes|
    ensures p[..m] == old(p[..n]) + bytes && p[m..] == old(p[m..])
  {
    for j := 0 to |bytes|
      invariant p[..n + j] == old(p[..n]) + bytes[..j]
      invariant forall i :: n + j <= i < p.Length ==> p[i] == old(p[i])
    {
      p[n + j] := bytes[j];
      assert p[..n + j + 1] == p[..n + j] + [bytes[j]];
    }
    m := n + |bytes|;
    assert bytes[..|bytes|] == bytes;
  }

  /** OpenFile's ReadAt against ReadFile: the same bytes wherever the whole file can be read,
      and a whole-range ReadAt succeeds exactly when the whole-file read does. */
  method ReadAtAgrees(fs: FS, in0: Inode, p: array<Byte>, off: nat) returns (accepted: bool, n: nat, err: Outcome)
    requires Decoded(in0, fs.sb.blockSize) && fs.sb.blockSize <= 0x10_0000
    requires off < in0.size
    modifies p
    ensures !accepted ==> FileContents(fs, in0, -1).Err?
    ensures forall content :: FileContents(fs, in0, -1) == Ok(content) ==>
              && accepted && n == Min(p.Length, in0.size - off)
              && p[..n] == content[off..off + n]
              && err == if off + p.Length <= in0.size then Done else EOF
    ensures off == 0 && p.Length == in0.size ==>
              (accepted && err == Done <==> FileContents(fs, in0, -1).Ok?)
  {
    hide FileByte, FileContents, Decoded, Opens;
    var file := NewFile(fs, in0);
    n, err := 0, Failed(Corrupt);
    accepted := file.Ok?;
    if accepted {
      OpensLengths(file.value, in0);
      n, err := ReadAt(file.value, in0, p, off);
    } else {
      OutOfReach(fs, in0);
    }
    forall content | FileContents(fs, in0, -1) == Ok(content)
      ensures accepted && n == Min(p.Length, in0.size - off)
      ensures |content| == in0.size && p[..n] == content[off..off + n]
      ensures err == if off + p.Length <= in0.size then Done else EOF
    {
      WholeFileByBytes(fs, in0, content);
    }
    if accepted && err == Done && off == 0 && p.Length == in0.size {
      assert p[..n] == p[..];
      WholeFileByBytes(fs, in0, p[..]);
    }
  }

  lemma OutOfReach(fs: FS, in0: Inode)
    requires in0.size > MaxBytes(fs, in0)
    ensures FileContents(fs, in0, -1) == Err(Corrupt)
  {
  }

  /** A size whose block count wraps is refused by both readers. */
  lemma WrappedSizesRefused(fs: FS, in0: Inode)
    requires Decoded(in0, fs.sb.blockSize) && fs.sb.blockSize <= 0x10_0000
    requires in0.fragIdx == INVALID_FRAG && in0.size + fs.sb.blockSize - 1 >= TWO_64
    ensures in0.blockSizes == []
    ensures in0.size > MaxBytes(fs, in0) && FileContents(fs, in0, -1) == Err(Corrupt)
  {
    DecodedCount(fs, in0);
    OutOfReach(fs, in0);
  }
}
