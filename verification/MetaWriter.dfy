/** metaWriter (write.go): the writer's half of the metadata stream. */
module MetaWriters {
  import opened Bytes
  import opened Codecs
  import opened Metadata

  lemma NextFullBlock(st: Storage, total: seq<Byte>, done: nat)
    requires done % META_MAX == 0 && done + META_MAX <= |total|
    ensures total[done..][..META_MAX] == total[done..done + META_MAX]
    ensures total[done..][META_MAX..] == total[done + META_MAX..]
    ensures Table(st, total[..done + META_MAX]) == Table(st, total[..done]) +
            MetaBlock(st, total[done..done + META_MAX])
  {
    hide MetaBlock;
    var block := total[done..done + META_MAX];
    assert total[..done + META_MAX] == total[..done] + block;
    TableAppend(st, total[..done], block);
  }

  /** Shifted left by 16 bits, a length leaves room for an in-block offset. */
  lemma OrIsPlus(a: nat, b: nat)
    requires b < TWO_16
    ensures (a * TWO_16 + b) % TWO_64 == a * TWO_16 % TWO_64 + b
    ensures (a * TWO_16 % TWO_64 + b) % TWO_16 == b
  {
    var q := a / 0x1_0000_0000_0000;
    var r := a % 0x1_0000_0000_0000;
    assert a * TWO_16 == q * TWO_64 + r * TWO_16;
    assert a * TWO_16 % TWO_64 == r * TWO_16;
  }

  lemma FloorIs(k: nat, f: nat)
    requires f % META_MAX == 0 && f <= k < f + META_MAX
    ensures Floor(k) == f
  {
  }

  /** `log` is everything written so far; `out` its full blocks, `buf` the rest of it. */
  class MetaWriter {
    const st: Storage
    ghost var log: seq<Byte>
    var out: seq<Byte>
    var buf: seq<Byte>

    /** The pending buffer is always shorter than a block. */
    ghost predicate Valid()
      reads this
    {
      && out == Table(st, log[..Floor(|log|)])
      && buf == log[Floor(|log|)..]
    }

    constructor (st: Storage)
      ensures this.st == st && log == [] && Valid()
    {
      this.st := st;
      log, out, buf := [], [], [];
    }

    method Ref() returns (r: nat)
      requires Valid()
      ensures r == RefAt(st, log, |log|)
      ensures RefOffset(r) == |buf| < META_MAX
    {
      hide Table, Floor;
      r := |out| * TWO_16 % TWO_64 + |buf|;
      OrIsPlus(|out|, |buf|);
    }

    method Emit(payload: seq<Byte>)
      modifies this`out
      ensures out == old(out) + MetaBlock(st, payload)
    {
      var kept := Keep(st, payload);
      out := out + LE16(MetaHeader(|kept.bytes|, kept.compressed));
      out := out + kept.bytes;
    }

    method Write(p: seq<Byte>)
      requires Valid()
      modifies this
      ensures Valid() && log == old(log) + p
    {
      hide Table, MetaBlock, Floor;
      ghost var total := log + p;
      ghost var done := Floor(|log|);
      assert total[..done] == log[..done] && total[done..] == log[done..] + p;
      buf := buf + p;
      log := total;
      while |buf| >= META_MAX
        invariant 0 <= done <= |total| && done % META_MAX == 0 && log == total
        invariant out == Table(st, total[..done]) && buf == total[done..]
        decreases |buf|
      {
        NextFullBlock(st, total, done);
        Emit(buf[..META_MAX]);
        buf := buf[META_MAX..];
        done := done + META_MAX;
      }
      FloorIs(|total|, done);
    }

    /** The finished table: every block of the stream, the last one short. */
    method Finish()
      requires Valid()
      modifies this
      ensures out == Table(st, log) && log == old(log) && buf == []
    {
      hide MetaBlock;
      assert log == log[..Floor(|log|)] + buf;
      TableAppend(st, log[..Floor(|log|)], buf);
      if |buf| > 0 {
        Emit(buf);
        buf := [];
      }
    }
  }
}
