/** The two-level fragment table: writeFragmentTable (write.go) and its reader. */
module FragmentTables {
  import opened Bytes
  import opened Codecs
  import opened Metadata
  import opened Data
  import opened Layout

  function FragRecord(fe: FragEntry): (r: seq<Byte>)
    ensures |r| == FRAG_ENTRY
  {
    LE64(fe.start) + (LE32(fe.word) + LE32(0))
  }

  function FragPayload(es: seq<FragEntry>): (r: seq<Byte>)
    ensures |r| == FRAG_ENTRY * |es|
  {
    if es == [] then [] else FragPayload(es[..|es| - 1]) + FragRecord(es[|es| - 1])
  }

  lemma {:induction false} RecordInPayload(es: seq<FragEntry>, k: nat)
    requires k < |es|
    ensures Holds(FragPayload(es), FRAG_ENTRY * k, FragRecord(es[k]))
    decreases |es|
  {
    hide FragRecord;
    var last := |es| - 1;
    if k < last {
      RecordInPayload(es[..last], k);
      HoldsGrows(FragPayload(es[..last]), FragPayload(es), FRAG_ENTRY * k, FragRecord(es[k]));
    }
  }

  /** The entries in metadata block j of the table. */
  function Group(es: seq<FragEntry>, j: nat): seq<FragEntry>
    requires j * FRAGS_PER_BLOCK <= |es|
  {
    es[j * FRAGS_PER_BLOCK..Min((j + 1) * FRAGS_PER_BLOCK, |es|)]
  }

  ghost predicate GroupAt(st: Storage, image: seq<Byte>, off: nat, es: seq<FragEntry>, j: nat) {
    j * FRAGS_PER_BLOCK < |es| && SUPERBLOCK <= off && Holds(image, off, MetaBlock(st, FragPayload(Group(es, j))))
  }

  /** The blocks of the table stand at `offs`. */
  ghost predicate GroupsAt(st: Storage, image: seq<Byte>, offs: seq<nat>, es: seq<FragEntry>) {
    forall j :: 0 <= j < |offs| ==> GroupAt(st, image, offs[j], es, j)
  }

  ghost predicate PointersAt(image: seq<Byte>, start: nat, offs: seq<nat>) {
    SUPERBLOCK <= start && forall j :: 0 <= j < |offs| ==> Holds(image, start + 8 * j, LE64(offs[j]))
  }

  /** The whole table: enough blocks for the entries, and an index of their offsets at `start`. */
  ghost predicate TableIn(st: Storage, image: seq<Byte>, start: nat, offs: seq<nat>, es: seq<FragEntry>) {
    |es| <= |offs| * FRAGS_PER_BLOCK && GroupsAt(st, image, offs, es) && PointersAt(image, start, offs)
  }

  /** Every entry is found through the index. */
  lemma EntryReadsBack(fs: FS, st: Storage, offs: seq<nat>, es: seq<FragEntry>, i: nat)
    requires Lawful(st.codec) && fs.codec == st.codec && |fs.image| < 0x8000_0000_0000_0000
    requires TableIn(st, fs.image, fs.sb.fragTable, offs, es) && i < |es| == fs.sb.fragCount
    requires es[i].start < TWO_64 && es[i].word < TWO_32
    ensures ReadFragmentEntry(fs, i) == Ok(es[i])
  {
    hide Lawful, LE64, U64, ReadMetaBlock, MetaBlock, FragPayload, I64;
    var j := i / FRAGS_PER_BLOCK;
    assert j < |offs| && Holds(fs.image, fs.sb.fragTable + 8 * j, LE64(offs[j]));
    assert GroupAt(st, fs.image, offs[j], es, j);
    PointerReads(fs, fs.sb.fragTable, j, offs[j]);
    var group, k := Group(es, j), i % FRAGS_PER_BLOCK;
    MetaBlockReads(fs, st, offs[j], FragPayload(group));
    RecordInPayload(group, k);
    RecordDecodes(FragPayload(group), FRAG_ENTRY * k, es[i]);
  }

  lemma PointerReads(fs: FS, start: nat, j: nat, off: nat)
    requires |fs.image| < 0x8000_0000_0000_0000 && off < |fs.image| && Holds(fs.image, start + 8 * j, LE64(off))
    ensures ReadRaw(fs.image, I64(I64(start) + j * 8), 8) == Ok(LE64(off))
    ensures I64(U64(LE64(off))) == off
  {
    hide LE64, U64;
    ReadRawHolds(fs.image, start + 8 * j, LE64(off));
  }

  lemma RecordDecodes(payload: seq<Byte>, o: nat, fe: FragEntry)
    requires Holds(payload, o, FragRecord(fe)) && fe.start < TWO_64 && fe.word < TWO_32
    ensures U64(payload[o..o + 8]) == fe.start && U32(payload[o + 8..o + 12]) == fe.word
  {
    hide LE64, LE32, U64, U32;
    HoldsParts(payload, o, LE64(fe.start), LE32(fe.word) + LE32(0));
    HoldsParts(payload, o + 8, LE32(fe.word), LE32(0));
  }

  method EncodeFragments(es: seq<FragEntry>) returns (payload: seq<Byte>)
    ensures payload == FragPayload(es)
  {
    hide FragRecord;
    payload := [];
    for k := 0 to |es|
      invariant payload == FragPayload(es[..k])
    {
      assert es[..k + 1][..k] == es[..k];
      payload := payload + FragRecord(es[k]);
    }
    assert es[..|es|] == es;
  }

  lemma GroupsGrow(st: Storage, image: seq<Byte>, image': seq<Byte>, offs: seq<nat>, es: seq<FragEntry>)
    requires GroupsAt(st, image, offs, es) && image <= image'
    ensures GroupsAt(st, image', offs, es)
  {
    hide MetaBlock, FragPayload;
    forall j | 0 <= j < |offs|
      ensures GroupAt(st, image', offs[j], es, j)
    {
      assert GroupAt(st, image, offs[j], es, j);
      HoldsGrows(image, image', offs[j], MetaBlock(st, FragPayload(Group(es, j))));
    }
  }

  /** writeFragmentTable: blocks of up to 512 entries, then the index. */
  method WriteFragmentTable(st: Storage, before: seq<Byte>, es: seq<FragEntry>)
    returns (data: seq<Byte>, start: nat, offs: seq<nat>)
    requires SUPERBLOCK <= |before|
    ensures before <= data && TableIn(st, data, start, offs, es)
    ensures |data| <= |before| + 26 * |es|
  {
    hide MetaBlock, FragPayload, LE64, GroupsAt;
    data, offs := before, [];
    NoGroups(st, data, es);
    var i := 0;
    while i < |es|
      invariant 0 <= i <= |es| && before <= data
      invariant i == |offs| * FRAGS_PER_BLOCK || (i == |es| && |es| <= |offs| * FRAGS_PER_BLOCK)
      invariant GroupsAt(st, data, offs, es)
      invariant |offs| <= i && |data| <= |before| + 18 * i
    {
      var end := Min(i + FRAGS_PER_BLOCK, |es|);
      var payload := EncodeFragments(es[i..end]);
      GroupAppended(st, data, offs, es);
      offs := offs + [|data|];
      data := data + MetaBlock(st, payload);
      i := end;
    }
    start := |data|;
    ghost var blocks := data;
    for j := 0 to |offs|
      invariant blocks <= data && |data| == start + 8 * j
      invariant forall k :: 0 <= k < j ==> Holds(data, start + 8 * k, LE64(offs[k]))
    {
      ghost var was := data;
      data := data + LE64(offs[j]);
      forall k | 0 <= k < j
        ensures Holds(data, start + 8 * k, LE64(offs[k]))
      {
        HoldsGrows(was, data, start + 8 * k, LE64(offs[k]));
      }
    }
    GroupsGrow(st, blocks, data, offs, es);
  }

  lemma NoGroups(st: Storage, image: seq<Byte>, es: seq<FragEntry>)
    ensures GroupsAt(st, image, [], es)
  {
  }

  lemma GroupAppended(st: Storage, image: seq<Byte>, offs: seq<nat>, es: seq<FragEntry>)
    requires GroupsAt(st, image, offs, es) && SUPERBLOCK <= |image| && |offs| * FRAGS_PER_BLOCK < |es|
    ensures var block := MetaBlock(st, FragPayload(Group(es, |offs|)));
            && |block| <= 2 + 16 * |Group(es, |offs|)|
            && GroupsAt(st, image + block, offs + [|image|], es)
  {
    hide FragPayload;
    var block := MetaBlock(st, FragPayload(Group(es, |offs|)));
    GroupsGrow(st, image, image + block, offs, es);
    forall j | 0 <= j < |offs| + 1
      ensures GroupAt(st, image + block, (offs + [|image|])[j], es, j)
    {
      if j < |offs| {
        assert GroupAt(st, image + block, offs[j], es, j);
      }
    }
  }
}
