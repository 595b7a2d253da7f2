/** The block cache (cache.go): its structure, and its invisibility to concurrent readers. */
module Cache {
  import opened Bytes
  import opened Codecs
  import opened Metadata
  import opened Data

  // ----- A first-in first-out bounded map -----

  datatype Fifo<V> = Fifo(keys: seq<int>, vals: map<int, V>)

  function Empty<V>(): Fifo<V> {
    Fifo([], map[])
  }

  function Put<V>(c: Fifo<V>, cap: int, k: int, v: V): Fifo<V> {
    if k in c.vals then c.(vals := c.vals[k := v])
    else
      var room := if |c.vals| >= cap && |c.keys| > 0 then Fifo(c.keys[1..], c.vals - {c.keys[0]}) else c;
      Fifo(room.keys + [k], room.vals[k := v])
  }

  predicate NoDuplicates(keys: seq<int>) {
    forall i, j :: 0 <= i < j < |keys| ==> keys[i] != keys[j]
  }

  /** The key queue has no duplicates and lists exactly the keys of the map. */
  ghost predicate Consistent<V>(c: Fifo<V>) {
    NoDuplicates(c.keys) && forall k :: k in c.keys <==> k in c.vals
  }

  lemma {:induction false} KeysCounted(keys: seq<int>, s: set<int>)
    requires NoDuplicates(keys) && forall k :: k in keys <==> k in s
    ensures |keys| == |s|
    decreases |keys|
  {
    if keys != [] {
      var k := keys[0];
      assert forall x :: x in keys[1..] <==> x in s - {k};
      KeysCounted(keys[1..], s - {k});
    } else {
      assert forall x :: x in s ==> x in keys;
    }
  }

  lemma SizeOfConsistent<V>(c: Fifo<V>)
    requires Consistent(c)
    ensures |c.keys| == |c.vals|
  {
    assert |c.vals| == |c.vals.Keys|;
    KeysCounted(c.keys, c.vals.Keys);
  }

  /** A put stores the value, never evicts on a key already there, and otherwise evicts at most
      the oldest surviving key. */
  lemma PutStep<V>(c: Fifo<V>, cap: int, k: int, v: V)
    requires Consistent(c)
    ensures var c' := Put(c, cap, k, v);
            && Consistent(c') && k in c'.vals && c'.vals[k] == v
            && (forall x :: x in c'.vals && x != k ==> x in c.vals && c'.vals[x] == c.vals[x])
            && (k in c.vals ==> c'.keys == c.keys)
            && (k !in c.vals && |c.vals| < cap ==> c'.keys == c.keys + [k])
            && (k !in c.vals && |c.vals| >= cap ==> c'.keys == c.keys[Min(1, |c.keys|)..] + [k])
            && (|c.keys| <= cap || |c.keys| <= 1 ==> |c'.keys| <= cap || |c'.keys| <= 1)
  {
    SizeOfConsistent(c);
    var c' := Put(c, cap, k, v);
    if k !in c.vals && |c.vals| >= cap && |c.keys| > 0 {
      assert forall x :: x in c.keys <==> x == c.keys[0] || x in c.keys[1..];
      assert c.keys[0] !in c.keys[1..];
    }
    assert forall x :: x in c'.keys <==> x in c'.vals;
  }

  // ----- Runs of puts -----

  datatype Event<V> = Event(key: int, value: V)

  function RunPuts<V>(cap: int, puts: seq<Event<V>>): Fifo<V> {
    if puts == [] then Empty()
    else
      var last := puts[|puts| - 1];
      Put(RunPuts(cap, puts[..|puts| - 1]), cap, last.key, last.value)
  }

  /** The keys in the order in which puts found them absent. */
  function Insertions<V>(cap: int, puts: seq<Event<V>>): seq<int> {
    if puts == [] then []
    else
      var before := puts[..|puts| - 1];
      var key := puts[|puts| - 1].key;
      Insertions(cap, before) + if key in RunPuts(cap, before).vals then [] else [key]
  }

  /** The value the last put for a key stored. */
  function LastPut<V>(puts: seq<Event<V>>, key: int): Option<V> {
    if puts == [] then None
    else if puts[|puts| - 1].key == key then Some(puts[|puts| - 1].value)
    else LastPut(puts[..|puts| - 1], key)
  }

  ghost predicate IsSuffix(tail: seq<int>, whole: seq<int>) {
    |tail| <= |whole| && whole[|whole| - |tail|..] == tail
  }

  /** After any run of puts the queue is the tail end of the insertion order, without
      duplicates, the map holds exactly those keys with the values last put, and there are at
      most max(cap, 1) of them. */
  lemma {:induction false} CacheStructure<V>(cap: int, puts: seq<Event<V>>)
    ensures var c := RunPuts(cap, puts);
            && Consistent(c) && IsSuffix(c.keys, Insertions(cap, puts))
            && (|c.keys| <= cap || |c.keys| <= 1)
            && forall k :: k in c.vals ==> LastPut(puts, k) == Some(c.vals[k])
    decreases |puts|
  {
    hide Put, Consistent, IsSuffix;
    if puts == [] {
      EmptyStructure<V>();
    } else {
      var before, last := puts[..|puts| - 1], puts[|puts| - 1];
      CacheStructure(cap, before);
      var c := RunPuts(cap, before);
      PutStep(c, cap, last.key, last.value);
      SuffixGrows(c.keys, Insertions(cap, before), last.key);
      assert Insertions(cap, before) + [] == Insertions(cap, before);
    }
  }

  lemma EmptyStructure<V>()
    ensures Consistent(Empty<V>()) && IsSuffix([], [])
  {
  }

  lemma SuffixGrows(tail: seq<int>, whole: seq<int>, k: int)
    requires IsSuffix(tail, whole)
    ensures IsSuffix(tail + [k], whole + [k])
    ensures IsSuffix(tail[Min(1, |tail|)..] + [k], whole + [k])
  {
  }

  // ----- Readers sharing a cache -----

  /** A request: an offset, and for a data block its size word. */
  datatype Request = Request(off: int, word: nat)

  /** What a read decodes to, whether it may use the cache, and the cache's capacity. */
  datatype Source<V> = Source(decode: Request -> Result<V>, cached: Request -> bool, cap: int)

  /** A reader: not reading, past a missed probe, holding a decoded block, or finished. The
      lock covers a probe or a put, and nothing between them. */
  datatype Reader<V> =
    | Idle
    | Missed(req: Request)
    | Holding(req: Request, value: V)
    | Done(req: Request, result: Result<V>)

  datatype System<V> = System(cache: Fifo<V>, readers: map<nat, Reader<V>>)

  /** One atomic step of some reader. */
  datatype Action = Probe(reader: nat, req: Request) | Decode(reader: nat) | Store(reader: nat)

  function StateOf<V>(s: System<V>, t: nat): Reader<V> {
    if t in s.readers then s.readers[t] else Idle
  }

  /** A step; one that its reader is not ready for changes nothing. */
  function Step<V>(src: Source<V>, s: System<V>, a: Action): System<V> {
    var state := StateOf(s, a.reader);
    match a
    case Probe(t, req) =>
      if state.Missed? || state.Holding? then s
      else if src.cached(req) && req.off in s.cache.vals then
        s.(readers := s.readers[t := Done(req, Ok(s.cache.vals[req.off]))])
      else
        s.(readers := s.readers[t := Missed(req)])
    case Decode(t) =>
      if !state.Missed? then s
      else
        var r := src.decode(state.req);
        s.(readers := s.readers[t := if r.Ok? && src.cached(state.req) then Holding(state.req, r.value)
                                     else Done(state.req, r)])
    case Store(t) =>
      if !state.Holding? then s
      else
        System(Put(s.cache, src.cap, state.req.off, state.value),
               s.readers[t := Done(state.req, Ok(state.value))])
  }

  /** The system after a schedule, from an empty cache. */
  function Run<V>(src: Source<V>, schedule: seq<Action>): System<V> {
    if schedule == [] then System(Empty(), map[])
    else Step(src, Run(src, schedule[..|schedule| - 1]), schedule[|schedule| - 1])
  }

  /** Every request of the schedule is one of `reqs`. */
  ghost predicate Uses(schedule: seq<Action>, reqs: set<Request>) {
    forall i :: 0 <= i < |schedule| && schedule[i].Probe? ==> schedule[i].req in reqs
  }

  /** Requests that meet in the cache decode alike. */
  ghost predicate Unambiguous<V(!new)>(src: Source<V>, reqs: set<Request>) {
    forall a, b :: a in reqs && b in reqs && a.off == b.off && src.cached(a) && src.cached(b) && src.decode(a).Ok? ==>
      src.decode(b) == src.decode(a)
  }

  /** Every finished read got what an uncached read would. */
  ghost predicate Transparent<V>(src: Source<V>, s: System<V>) {
    forall t :: t in s.readers && s.readers[t].Done? ==> s.readers[t].result == src.decode(s.readers[t].req)
  }

  /** Every cached block is what some cacheable request for its offset decodes to. */
  ghost predicate Backed<V(!new)>(src: Source<V>, cache: Fifo<V>, reqs: set<Request>) {
    Consistent(cache) &&
    forall k :: k in cache.vals ==>
      exists r :: r in reqs && r.off == k && src.cached(r) && src.decode(r) == Ok(cache.vals[k])
  }

  ghost predicate ReaderOk<V>(src: Source<V>, r: Reader<V>, reqs: set<Request>) {
    match r
    case Idle => true
    case Missed(req) => req in reqs
    case Holding(req, v) => req in reqs && src.cached(req) && src.decode(req) == Ok(v)
    case Done(req, result) => result == src.decode(req)
  }

  ghost predicate Invariant<V(!new)>(src: Source<V>, s: System<V>, reqs: set<Request>) {
    Backed(src, s.cache, reqs) && forall t :: t in s.readers ==> ReaderOk(src, s.readers[t], reqs)
  }

  lemma StepKeepsInvariant<V(!new)>(src: Source<V>, s: System<V>, a: Action, reqs: set<Request>)
    requires Invariant(src, s, reqs) && Unambiguous(src, reqs) && (a.Probe? ==> a.req in reqs)
    ensures Invariant(src, Step(src, s, a), reqs)
  {
    hide Consistent, Put;
    if a.Store? && StateOf(s, a.reader).Holding? {
      var state := StateOf(s, a.reader);
      var cache := Put(s.cache, src.cap, state.req.off, state.value);
      PutStep(s.cache, src.cap, state.req.off, state.value);
      assert Backed(src, cache, reqs);
    }
  }

  lemma {:induction false} RunsAreTransparent<V(!new)>(src: Source<V>, schedule: seq<Action>, reqs: set<Request>)
    requires Unambiguous(src, reqs) && Uses(schedule, reqs)
    ensures Invariant(src, Run(src, schedule), reqs) && Transparent(src, Run(src, schedule))
    decreases |schedule|
  {
    hide Step, Unambiguous;
    if schedule != [] {
      var before := schedule[..|schedule| - 1];
      RunsAreTransparent(src, before, reqs);
      StepKeepsInvariant(src, Run(src, before), schedule[|schedule| - 1], reqs);
    }
  }

  /** Two readers, one after the other: the second is served the first one's block. */
  function Collision(a: Request, b: Request): seq<Action> {
    [Probe(0, a), Decode(0), Store(0), Probe(1, b)]
  }

  lemma CollisionShows<V>(src: Source<V>, a: Request, b: Request)
    requires a.off == b.off && src.cached(a) && src.cached(b) && src.decode(a).Ok?
    ensures var s := Run(src, Collision(a, b)); 1 in s.readers && s.readers[1] == Done(b, src.decode(a))
  {
    var schedule := Collision(a, b);
    var s1 := Step(src, System(Empty(), map[]), Probe(0, a));
    var s2 := Step(src, s1, Decode(0));
    var s3 := Step(src, s2, Store(0));
    assert schedule[..3][..2][..1][..0] == [];
    assert Run(src, schedule[..3][..2][..1]) == s1;
    assert Run(src, schedule[..3][..2]) == s2;
    assert Run(src, schedule[..3]) == s3;
    assert Run(src, schedule) == Step(src, s3, Probe(1, b));
  }

  /** The cache is invisible in every interleaving of probes, decodes and puts by any number
      of readers, with evictions, if and only if requests that meet in it decode alike. */
  lemma InvisibleIffUnambiguous<V(!new)>(src: Source<V>, reqs: set<Request>)
    ensures Unambiguous(src, reqs) <==>
            forall schedule :: Uses(schedule, reqs) ==> Transparent(src, Run(src, schedule))
  {
    if Unambiguous(src, reqs) {
      forall schedule | Uses(schedule, reqs)
        ensures Transparent(src, Run(src, schedule))
      {
        RunsAreTransparent(src, schedule, reqs);
      }
    } else {
      var a, b :| a in reqs && b in reqs && a.off == b.off && src.cached(a) && src.cached(b) && src.decode(a).Ok? &&
                  src.decode(b) != src.decode(a);
      CollisionShows(src, a, b);
      assert Uses(Collision(a, b), reqs);
      assert !Transparent(src, Run(src, Collision(a, b)));
    }
  }

  // ----- Metadata blocks and data blocks -----

  function MetaSource(fs: FS, cap: int): Source<MetaEntry> {
    Source((r: Request) => ReadMetaBlock(fs, r.off), (r: Request) => true, cap)
  }

  /** Only a compressed block within the bounds readBlock checks reaches the cache. */
  predicate ReachesCache(fs: FS, off: int, word: nat) {
    var n := OnDisk(word);
    0 < n <= fs.sb.blockSize && ExtentOk(fs, off, n) && !IsRaw(word)
  }

  function DataSource(fs: FS, cap: int): Source<seq<Byte>> {
    Source((r: Request) => ReadBlock(fs, r.off, r.word), (r: Request) => ReachesCache(fs, r.off, r.word), cap)
  }

  /** Metadata reads see no cache, in any image and any interleaving. */
  lemma MetadataCacheInvisible(fs: FS, cap: int, schedule: seq<Action>)
    ensures Transparent(MetaSource(fs, cap), Run(MetaSource(fs, cap), schedule))
  {
    hide Run;
    var reqs := set i | 0 <= i < |schedule| && schedule[i].Probe? :: schedule[i].req;
    RunsAreTransparent(MetaSource(fs, cap), schedule, reqs);
  }

  /** Each offset is always used with one size word. */
  ghost predicate OneWordPerOffset(reqs: set<Request>) {
    forall a, b :: a in reqs && b in reqs && a.off == b.off ==> a.word == b.word
  }

  lemma DataCacheInvisible(fs: FS, cap: int, reqs: set<Request>, schedule: seq<Action>)
    requires OneWordPerOffset(reqs) && Uses(schedule, reqs)
    ensures Transparent(DataSource(fs, cap), Run(DataSource(fs, cap), schedule))
  {
    hide Run;
    RunsAreTransparent(DataSource(fs, cap), schedule, reqs);
  }

  // ----- blockCache and the cached reads -----

  class BlockCache {
    var meta: map<int, MetaEntry>
    var data: map<int, seq<Byte>>
    var metaCap: int
    var dataCap: int
    var metaKeys: seq<int>
    var dataKeys: seq<int>

    ghost function Meta(): Fifo<MetaEntry>
      reads this
    {
      Fifo(metaKeys, meta)
    }

    ghost function Data(): Fifo<seq<Byte>>
      reads this
    {
      Fifo(dataKeys, data)
    }

    constructor ()
      ensures Meta() == Empty() && Data() == Empty() && metaCap == 16384 && dataCap == 64
    {
      meta, data, metaKeys, dataKeys := map[], map[], [], [];
      metaCap, dataCap := 16384, 64;
    }

    method GetMeta(off: int) returns (e: Option<MetaEntry>)
      ensures e == if off in meta then Some(meta[off]) else None
    {
      e := if off in meta then Some(meta[off]) else None;
    }

    method PutMeta(off: int, e: MetaEntry)
      modifies this`meta, this`metaKeys
      ensures Meta() == Put(old(Meta()), metaCap, off, e)
    {
      if off !in meta {
        if |meta| >= metaCap && |metaKeys| > 0 {
          var oldest := metaKeys[0];
          metaKeys := metaKeys[1..];
          meta := meta - {oldest};
        }
        metaKeys := metaKeys + [off];
      }
      meta := meta[off := e];
    }

    method GetData(off: int) returns (b: Option<seq<Byte>>)
      ensures b == if off in data then Some(data[off]) else None
    {
      b := if off in data then Some(data[off]) else None;
    }

    method PutData(off: int, b: seq<Byte>)
      modifies this`data, this`dataKeys
      ensures Data() == Put(old(Data()), dataCap, off, b)
    {
      if off !in data {
        if |data| >= dataCap && |dataKeys| > 0 {
          var oldest := dataKeys[0];
          dataKeys := dataKeys[1..];
          data := data - {oldest};
        }
        dataKeys := dataKeys + [off];
      }
      data := data[off := b];
    }
  }

  /** readMetaBlockCached, alone with its cache: the uncached answer, and a cache still good. */
  method ReadMetaBlockCached(cache: BlockCache, fs: FS, at: int, ghost reqs: set<Request>)
    returns (r: Result<MetaEntry>)
    requires Backed(MetaSource(fs, cache.metaCap), cache.Meta(), reqs) && Request(at, 0) in reqs
    modifies cache`meta, cache`metaKeys
    ensures r == ReadMetaBlock(fs, at)
    ensures Backed(MetaSource(fs, cache.metaCap), cache.Meta(), reqs)
  {
    hide ReadMetaBlock, Put;
    var hit := cache.GetMeta(at);
    if hit.Some? {
      return Ok(hit.value);
    }
    r := ReadMetaBlock(fs, at);
    if r.Ok? {
      PutStep(cache.Meta(), cache.metaCap, at, r.value);
      assert MetaSource(fs, cache.metaCap).decode(Request(at, 0)) == Ok(r.value);
      cache.PutMeta(at, r.value);
    }
  }

  /** readBlock, cache included. */
  method ReadBlockCached(cache: BlockCache, fs: FS, off: int, word: nat, ghost reqs: set<Request>)
    returns (r: Result<seq<Byte>>)
    requires Backed(DataSource(fs, cache.dataCap), cache.Data(), reqs) && Request(off, word) in reqs
    requires Unambiguous(DataSource(fs, cache.dataCap), reqs)
    modifies cache`data, cache`dataKeys
    ensures r == ReadBlock(fs, off, word)
    ensures Backed(DataSource(fs, cache.dataCap), cache.Data(), reqs)
  {
    hide Put, Consistent;
    ghost var src, req := DataSource(fs, cache.dataCap), Request(off, word);
    assert src.decode(req) == ReadBlock(fs, off, word) && src.cached(req) == ReachesCache(fs, off, word);
    var n := OnDisk(word);
    if n == 0 {
      return Ok([]);
    }
    if n > fs.sb.blockSize {
      return Err(Corrupt);
    }
    if !ExtentOk(fs, off, n) {
      return Err(Corrupt);
    }
    if !IsRaw(word) {
      var hit := cache.GetData(off);
      if hit.Some? {
        return Ok(hit.value);
      }
    }
    var raw := ReadRaw(fs.image, off, n);
    if raw.Err? {
      return Err(raw.error);
    }
    if IsRaw(word) {
      return Ok(raw.value);
    }
    r := Unpack(fs.codec, Kept(raw.value, true), fs.sb.blockSize);
    if r.Ok? {
      PutStep(cache.Data(), cache.dataCap, off, r.value);
      assert src.decode(req) == Ok(r.value);
      cache.PutData(off, r.value);
    }
  }
}
