/** The block compressor, kept abstract, and the writer's "keep raw unless shorter" rule. */
module Codecs {
  import opened Bytes

  /** An encoder may fail; a decoder is told the most it may produce. */
  datatype Codec = Codec(
    compress: seq<Byte> -> Option<seq<Byte>>,
    decompress: (seq<Byte>, nat) -> Option<seq<Byte>>)

  /** Decoding undoes the encoding of x when x fits the output limit, and encoding does not turn
      x into nothing. */
  ghost predicate LawfulOn(c: Codec, x: seq<Byte>, limit: nat) {
    x != [] && c.compress(x).Some? ==>
      c.compress(x).value != [] && (|x| <= limit ==> c.decompress(c.compress(x).value, limit) == Some(x))
  }

  ghost predicate Lawful(c: Codec) {
    forall x: seq<Byte>, limit: nat :: LawfulOn(c, x, limit)
  }

  /** How an image stores its blocks: `raw` is BuildOptions.Uncompressed. */
  datatype Storage = Storage(raw: bool, codec: Codec)

  datatype Kept = Kept(bytes: seq<Byte>, compressed: bool)

  /** imageWriter.compress. */
  function Keep(st: Storage, payload: seq<Byte>): (r: Kept)
    ensures |r.bytes| <= |payload|
    ensures r.compressed <==> !st.raw && payload != [] && st.codec.compress(payload).Some? &&
                              |st.codec.compress(payload).value| < |payload|
    ensures !r.compressed ==> r.bytes == payload
    ensures r.compressed ==> |r.bytes| < |payload| && st.codec.compress(payload) == Some(r.bytes)
  {
    if st.raw || |payload| == 0 then
      Kept(payload, false)
    else
      match st.codec.compress(payload)
      case None => Kept(payload, false)
      case Some(out) =>
        if |out| >= |payload| then Kept(payload, false) else Kept(out, true)
  }

  lemma KeepNonEmpty(st: Storage, payload: seq<Byte>)
    requires Lawful(st.codec) && payload != []
    ensures Keep(st, payload).bytes != []
  {
    assert LawfulOn(st.codec, payload, 0);
  }

  /** The reader's side of Keep. */
  function Unpack(codec: Codec, stored: Kept, limit: nat): Result<seq<Byte>> {
    if !stored.compressed then Ok(stored.bytes)
    else
      match codec.decompress(stored.bytes, limit)
      case None => Err(Unreadable)
      case Some(out) => Ok(out)
  }

  lemma KeepUnpack(st: Storage, payload: seq<Byte>, limit: nat)
    requires Lawful(st.codec) && |payload| <= limit
    ensures Unpack(st.codec, Keep(st, payload), limit) == Ok(payload)
  {
    assert LawfulOn(st.codec, payload, limit);
  }

  // ----- A concrete lawful codec, so that the theorems are not about nothing -----

  function Run(b: Byte, n: nat): (r: seq<Byte>)
    ensures |r| == n && forall i :: 0 <= i < n ==> r[i] == b
  {
    seq(n, _ => b)
  }

  /** Encodes a run of one byte value as that byte and a 32-bit count; refuses the rest. */
  function RunCompress(x: seq<Byte>): Option<seq<Byte>> {
    if x == [] || |x| >= TWO_32 || x != Run(x[0], |x|) then None else Some([x[0]] + LE32(|x|))
  }

  function RunDecompress(s: seq<Byte>, limit: nat): Option<seq<Byte>> {
    if |s| != 5 || U32(s[1..]) > limit then None else Some(Run(s[0], U32(s[1..])))
  }

  const RUN_CODEC := Codec(RunCompress, RunDecompress)

  lemma RunCodecLawful()
    ensures Lawful(RUN_CODEC)
  {
    forall x: seq<Byte>, limit: nat
      ensures LawfulOn(RUN_CODEC, x, limit)
    {
      RunLaws(x, limit);
    }
  }

  lemma RunLaws(x: seq<Byte>, limit: nat)
    ensures LawfulOn(RUN_CODEC, x, limit)
  {
    hide LE32, U32;
    if RunCompress(x).Some? {
      var s := [x[0]] + LE32(|x|);
      assert s[1..] == LE32(|x|);
    }
  }
}
