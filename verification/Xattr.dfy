/** Extended-attribute lists and their budget (xattr.go). */
module Xattrs {
  import opened Bytes
  import opened Codecs
  import opened Metadata
  import opened Inodes
  import opened Records

  const OUT_OF_LINE: nat := 0x100

  /** The namespace prefix of a stored name: "user.", "trusted." or "security.". */
  function Prefix(typ: nat): Option<seq<Byte>> {
    if typ % 256 == 0 then Some([117, 115, 101, 114, 46])
    else if typ % 256 == 1 then Some([116, 114, 117, 115, 116, 101, 100, 46])
    else if typ % 256 == 2 then Some([115, 101, 99, 117, 114, 105, 116, 121, 46])
    else None
  }

  predicate IsOutOfLine(typ: nat) {
    typ / 256 % 2 == 1
  }

  datatype Pair = Pair(name: seq<Byte>, value: seq<Byte>)

  /** A cursor at a reference into the key/value region. */
  function OpenKv(fs: FS, kv: int, ref: nat): Result<Cursor> {
    OpenCursor(fs, I64(kv + RefBlock(ref)), RefOffset(ref))
  }

  /** readXattrValueAt: the value record an out-of-line reference names. */
  function ReadValueAt(fs: FS, kv: int, ref: nat): (r: Result<seq<Byte>>)
    ensures r.Ok? ==> |r.value| <= META_MAX
  {
    var c :- OpenKv(fs, kv, ref);
    var (hdr, c1) :- ReadBytes(fs, c, 4);
    var vsize := U32(hdr);
    if vsize > META_MAX then Err(Corrupt)
    else
      var (v, _) :- ReadBytes(fs, c1, vsize);
      Ok(v)
  }

  /** The value part of a pair. */
  function ReadValue(fs: FS, kv: int, c: Cursor, typ: nat): Result<(seq<Byte>, Cursor)> {
    var (hdr, c1) :- ReadBytes(fs, c, 4);
    var vsize := U32(hdr);
    if IsOutOfLine(typ) then
      if vsize != 8 then Err(Corrupt)
      else
        var (ref, c2) :- ReadBytes(fs, c1, 8);
        var v :- ReadValueAt(fs, kv, U64(ref));
        Ok((v, c2))
    else if vsize > META_MAX then Err(Corrupt)
    else ReadBytes(fs, c1, vsize)
  }

  function ReadPair(fs: FS, kv: int, c: Cursor): Result<(Pair, Cursor)> {
    var (hdr, c1) :- ReadBytes(fs, c, 4);
    var typ, nameSize := U16(hdr[0..2]), U16(hdr[2..4]);
    if nameSize > META_MAX then Err(Corrupt)
    else
      var (name, c2) :- ReadBytes(fs, c1, nameSize);
      match Prefix(typ)
      case None => Err(Corrupt)
      case Some(prefix) =>
        var (value, c3) :- ReadValue(fs, kv, c2, typ);
        Ok((Pair(prefix + name, value), c3))
  }

  /** What a pair is charged: its name, its value and a fixed 8 bytes. */
  function Charge(p: Pair): nat {
    8 + |p.name| + |p.value|
  }

  function Charges(ps: seq<Pair>): nat {
    if ps == [] then 0 else Charge(ps[0]) + Charges(ps[1..])
  }

  /** `count` pairs within a budget. */
  function ReadPairs(fs: FS, kv: int, c: Cursor, count: nat, budget: int): Result<seq<Pair>>
    decreases count
  {
    if count == 0 then Ok([])
    else if budget < 8 then Err(TooLarge)
    else
      var (p, c1) :- ReadPair(fs, kv, c);
      if budget < Charge(p) then Err(TooLarge)
      else
        var rest :- ReadPairs(fs, kv, c1, count - 1, budget - Charge(p));
        Ok([p] + rest)
  }

  /** The attributes as a map; a later pair overrides an earlier one of the same name. */
  function AsMap(m: map<seq<Byte>, seq<Byte>>, ps: seq<Pair>): map<seq<Byte>, seq<Byte>>
    decreases |ps|
  {
    if ps == [] then m else AsMap(m[ps[0].name := ps[0].value], ps[1..])
  }

  /** What readXattrPairs returns for a list of `count` pairs at a reference. */
  function Attributes(fs: FS, kv: int, ref: nat, count: nat, ceiling: nat): Result<map<seq<Byte>, seq<Byte>>> {
    var c :- OpenKv(fs, kv, ref);
    var ps :- ReadPairs(fs, kv, c, count, ceiling);
    Ok(AsMap(map[], ps))
  }

  ghost predicate Named(ps: seq<Pair>, name: seq<Byte>) {
    exists i :: 0 <= i < |ps| && ps[i].name == name
  }

  /** No later pair has the same name. */
  ghost predicate LastOfName(ps: seq<Pair>, i: int) {
    0 <= i < |ps| && forall j :: i < j < |ps| ==> ps[j].name != ps[i].name
  }

  /** The keys are the names, each with the value of its last pair. */
  lemma {:induction false} AsMapHolds(m: map<seq<Byte>, seq<Byte>>, ps: seq<Pair>)
    ensures forall name :: name in AsMap(m, ps) <==> name in m || Named(ps, name)
    ensures forall i :: LastOfName(ps, i) ==> ps[i].name in AsMap(m, ps) && AsMap(m, ps)[ps[i].name] == ps[i].value
    ensures forall name :: name in m && !Named(ps, name) ==> AsMap(m, ps)[name] == m[name]
    decreases |ps|
  {
    hide Named, LastOfName;
    if ps == [] {
      NoneNamed();
    } else {
      var m', rest := m[ps[0].name := ps[0].value], ps[1..];
      AsMapHolds(m', rest);
      forall name
        ensures Named(ps, name) <==> name == ps[0].name || Named(rest, name)
      {
        NamedFromFirst(ps, name);
      }
      forall i | LastOfName(ps, i)
        ensures 0 <= i < |ps| && ps[i].name in AsMap(m, ps) && AsMap(m, ps)[ps[i].name] == ps[i].value
      {
        LastFromFirst(ps, i);
      }
    }
  }

  lemma NoneNamed()
    ensures forall name :: !Named([], name)
    ensures forall i :: !LastOfName([], i)
  {
  }

  lemma NamedFromFirst(ps: seq<Pair>, name: seq<Byte>)
    requires ps != []
    ensures Named(ps, name) <==> name == ps[0].name || Named(ps[1..], name)
  {
    if Named(ps[1..], name) {
      var i :| 0 <= i < |ps| - 1 && ps[1..][i].name == name;
      assert ps[i + 1].name == name;
    }
    if i :| 0 < i < |ps| && ps[i].name == name {
      assert ps[1..][i - 1].name == name;
    }
  }

  lemma LastFromFirst(ps: seq<Pair>, i: int)
    requires LastOfName(ps, i)
    ensures 0 <= i < |ps|
    ensures i > 0 ==> ps[1..][i - 1] == ps[i] && LastOfName(ps[1..], i - 1)
    ensures i == 0 ==> !Named(ps[1..], ps[0].name)
  {
  }

  /** For any declared count and any region: the pairs of a successful read cost no more than
      the ceiling, and there are as many of them as declared. */
  lemma {:induction false} BudgetHolds(fs: FS, kv: int, c: Cursor, count: nat, budget: nat)
    ensures var r := ReadPairs(fs, kv, c, count, budget);
            r.Ok? ==> |r.value| == count && Charges(r.value) <= budget && 8 * count <= budget
    decreases count
  {
    hide ReadPair;
    if count > 0 {
      var step := ReadPair(fs, kv, c);
      if step.Ok? && budget >= Charge(step.value.0) {
        var (p, c1) := step.value;
        BudgetHolds(fs, kv, c1, count - 1, budget - Charge(p));
        var rest := ReadPairs(fs, kv, c1, count - 1, budget - Charge(p));
        if rest.Ok? {
          assert ([p] + rest.value)[1..] == rest.value;
        }
      }
    }
  }

  // ----- Reading back a stored list -----

  /** A pair as mksquashfs stores it: inline, or out of line with a reference to its value. */
  datatype Entry = Inline(space: nat, name: seq<Byte>, value: seq<Byte>)
                 | OutOfLine(space: nat, name: seq<Byte>, at: nat, value: seq<Byte>)

  function ValueRecord(v: seq<Byte>): seq<Byte> {
    LE32(|v|) + v
  }

  function EncodeKey(typ: nat, name: seq<Byte>): seq<Byte> {
    LE16(typ) + LE16(|name|) + name
  }

  /** An entry of the region s; an out-of-line value is named by the reference of its position. */
  function EncodeEntry(st: Storage, s: seq<Byte>, e: Entry): seq<Byte> {
    match e
    case Inline(space, name, value) => EncodeKey(space, name) + ValueRecord(value)
    case OutOfLine(space, name, at, _) =>
      EncodeKey(space + OUT_OF_LINE, name) + ValueRecord(LE64(if at <= |s| then RefAt(st, s, at) else 0))
  }

  /** The entry is representable, and an out-of-line value stands where it says. */
  ghost predicate EntryOk(st: Storage, s: seq<Byte>, e: Entry) {
    && e.space < 3 && |e.name| <= META_MAX && |e.value| <= META_MAX
    && (e.OutOfLine? ==> Holds(s, e.at, ValueRecord(e.value)))
  }

  function Meaning(e: Entry): Pair {
    Pair(if e.space < 3 then Prefix(e.space).value + e.name else [], e.value)
  }

  ghost predicate Region(fs: FS, st: Storage, kv: nat, s: seq<Byte>) {
    && TableAt(fs, st, kv, s) && |fs.image| < 0x8000_0000_0000_0000 && |Table(st, s)| < TWO_48
  }

  lemma OpensInRegion(fs: FS, st: Storage, kv: nat, s: seq<Byte>, k: nat) returns (c: Cursor)
    requires Region(fs, st, kv, s) && k < |s|
    ensures OpenKv(fs, kv, RefAt(st, s, k)) == Ok(c) && CursorAt(st, kv, s, k, c)
    ensures RefAt(st, s, k) < TWO_64
  {
    hide Table, CursorAt, TableAt, OpenCursor, I64, TableOffset, BlockStart, Floor, RefAt, RefBlock, RefOffset;
    BlockStartWithin(st, s, k);
    TableWithin(fs, st, kv, s);
    RefParts(st, s, k);
    RefIs64(st, s, k);
    KvOffset(kv, BlockStart(st, s, k));
    c := OpensAt(fs, st, kv, s, k);
  }

  lemma TableWithin(fs: FS, st: Storage, kv: nat, s: seq<Byte>)
    requires TableAt(fs, st, kv, s)
    ensures kv + |Table(st, s)| <= |fs.image|
  {
  }

  lemma RefIs64(st: Storage, s: seq<Byte>, k: nat)
    requires k <= |s|
    ensures RefAt(st, s, k) < TWO_64
  {
  }

  lemma KvOffset(kv: nat, block: nat)
    requires kv + block < 0x8000_0000_0000_0000
    ensures I64(kv + block) == TableOffset(kv, block)
  {
  }

  /** An out-of-line reference yields exactly the value record stored there. */
  lemma ValueReadsBack(fs: FS, st: Storage, kv: nat, s: seq<Byte>, at: nat, v: seq<Byte>)
    requires Region(fs, st, kv, s) && Holds(s, at, ValueRecord(v)) && |v| <= META_MAX
    ensures ReadValueAt(fs, kv, RefAt(st, s, at)) == Ok(v)
  {
    hide ReadBytes, CursorAt, TableAt, OpenKv, RefAt, LE32, U32, Table;
    var c := OpensInRegion(fs, st, kv, s, at);
    HoldsParts(s, at, LE32(|v|), v);
    ReadBack(fs, st, kv, s, at, c, 4);
    ReadBack(fs, st, kv, s, at + 4, ReadBytes(fs, c, 4).value.1, |v|);
  }

  lemma KeyReadsBack(fs: FS, st: Storage, kv: nat, s: seq<Byte>, k: nat, c: Cursor, typ: nat, name: seq<Byte>)
    returns (c2: Cursor)
    requires Region(fs, st, kv, s) && CursorAt(st, kv, s, k, c)
    requires typ < TWO_16 && |name| <= META_MAX && Holds(s, k, EncodeKey(typ, name))
    ensures CursorAt(st, kv, s, k + 4 + |name|, c2)
    ensures var hdr := ReadBytes(fs, c, 4);
            && hdr.Ok? && U16(hdr.value.0[0..2]) == typ && U16(hdr.value.0[2..4]) == |name|
            && ReadBytes(fs, hdr.value.1, |name|) == Ok((name, c2))
  {
    hide ReadBytes, CursorAt, TableAt, LE16, U16, Table;
    var hdr := LE16(typ) + LE16(|name|);
    HoldsParts(s, k, hdr, name);
    ReadBack(fs, st, kv, s, k, c, 4);
    assert hdr[0..2] == LE16(typ) && hdr[2..4] == LE16(|name|);
    var c1 := ReadBytes(fs, c, 4).value.1;
    ReadBack(fs, st, kv, s, k + 4, c1, |name|);
    c2 := ReadBytes(fs, c1, |name|).value.1;
  }

  /** Reading the value part of an entry. */
  lemma ValuePartReadsBack(fs: FS, st: Storage, kv: nat, s: seq<Byte>, k: nat, c: Cursor, typ: nat, body: seq<Byte>)
    returns (c': Cursor)
    requires Region(fs, st, kv, s) && CursorAt(st, kv, s, k, c) && Holds(s, k, ValueRecord(body)) && |body| <= META_MAX
    ensures CursorAt(st, kv, s, k + 4 + |body|, c')
    ensures !IsOutOfLine(typ) ==> ReadValue(fs, kv, c, typ) == Ok((body, c'))
    ensures IsOutOfLine(typ) && |body| == 8 && ReadValueAt(fs, kv, U64(body)).Ok? ==>
              ReadValue(fs, kv, c, typ) == Ok((ReadValueAt(fs, kv, U64(body)).value, c'))
  {
    hide ReadBytes, CursorAt, TableAt, LE32, U32, U64, Table, ReadValueAt, IsOutOfLine;
    HoldsParts(s, k, LE32(|body|), body);
    ReadBack(fs, st, kv, s, k, c, 4);
    var c1 := ReadBytes(fs, c, 4).value.1;
    ReadBack(fs, st, kv, s, k + 4, c1, |body|);
    c' := ReadBytes(fs, c1, |body|).value.1;
  }

  lemma EntryReadsBack(fs: FS, st: Storage, kv: nat, s: seq<Byte>, k: nat, c: Cursor, e: Entry) returns (c': Cursor)
    requires Region(fs, st, kv, s) && CursorAt(st, kv, s, k, c) && EntryOk(st, s, e)
    requires Holds(s, k, EncodeEntry(st, s, e))
    ensures ReadPair(fs, kv, c) == Ok((Meaning(e), c'))
    ensures CursorAt(st, kv, s, k + |EncodeEntry(st, s, e)|, c')
  {
    hide ReadBytes, CursorAt, Region, LE32, U32, LE64, U64, U16, ReadValueAt, ReadValue, RefAt, EncodeKey;
    var typ := e.space + if e.OutOfLine? then OUT_OF_LINE else 0;
    var body := if e.OutOfLine? then LE64(RefAt(st, s, e.at)) else e.value;
    KeyLength(typ, e.name);
    HoldsParts(s, k, EncodeKey(typ, e.name), ValueRecord(body));
    var c2 := KeyReadsBack(fs, st, kv, s, k, c, typ, e.name);
    if e.OutOfLine? {
      ValueReadsBack(fs, st, kv, s, e.at, e.value);
      var c4 := OpensInRegion(fs, st, kv, s, e.at);
    }
    c' := ValuePartReadsBack(fs, st, kv, s, k + 4 + |e.name|, c2, typ, body);
  }

  lemma KeyLength(typ: nat, name: seq<Byte>)
    ensures |EncodeKey(typ, name)| == 4 + |name|
  {
  }

  function EncodeEntries(st: Storage, s: seq<Byte>, es: seq<Entry>): seq<Byte> {
    if es == [] then [] else EncodeEntry(st, s, es[0]) + EncodeEntries(st, s, es[1..])
  }

  function Meanings(es: seq<Entry>): (ps: seq<Pair>)
    ensures |ps| == |es|
  {
    if es == [] then [] else [Meaning(es[0])] + Meanings(es[1..])
  }

  /** A stored list, inline and out-of-line pairs alike, is read back pair by pair exactly when
      its charges stay within the budget; otherwise the read is refused as too large. */
  lemma {:induction false} ListReadsBack(fs: FS, st: Storage, kv: nat, s: seq<Byte>, k: nat, c: Cursor, es: seq<Entry>,
                                         budget: nat)
    requires Region(fs, st, kv, s) && CursorAt(st, kv, s, k, c)
    requires forall i :: 0 <= i < |es| ==> EntryOk(st, s, es[i])
    requires Holds(s, k, EncodeEntries(st, s, es))
    ensures ReadPairs(fs, kv, c, |es|, budget) ==
            if Charges(Meanings(es)) <= budget then Ok(Meanings(es)) else Err(TooLarge)
    decreases |es|
  {
    hide ReadPair, CursorAt, Region, EncodeEntry, Meaning, EntryOk;
    if es != [] {
      HoldsParts(s, k, EncodeEntry(st, s, es[0]), EncodeEntries(st, s, es[1..]));
      var c' := EntryReadsBack(fs, st, kv, s, k, c, es[0]);
      var p := Meaning(es[0]);
      assert Meanings(es)[1..] == Meanings(es[1..]);
      if Charge(p) <= budget {
        ListReadsBack(fs, st, kv, s, k + |EncodeEntry(st, s, es[0])|, c', es[1..], budget - Charge(p));
      }
    }
  }

  /** The full name of a stored attribute: "user.", "trusted." or "security." and its name. */
  ghost predicate IsFullName(e: Entry, name: seq<Byte>) {
    || (e.space == 0 && name == [117, 115, 101, 114, 46] + e.name)
    || (e.space == 1 && name == [116, 114, 117, 115, 116, 101, 100, 46] + e.name)
    || (e.space == 2 && name == [115, 101, 99, 117, 114, 105, 116, 121, 46] + e.name)
  }

  /** Entry i gives the attribute its value: it is the last with that full name. */
  ghost predicate Gives(es: seq<Entry>, i: int, name: seq<Byte>) {
    0 <= i < |es| && IsFullName(es[i], name) && forall j :: i < j < |es| ==> !IsFullName(es[j], name)
  }

  /** Exactly the stored attributes. */
  ghost predicate Holding(m: map<seq<Byte>, seq<Byte>>, es: seq<Entry>) {
    && (forall name :: name in m ==> exists i :: Gives(es, i, name))
    && (forall i, name :: Gives(es, i, name) ==> name in m && m[name] == es[i].value)
  }

  /** 8 bytes a pair, its full name and its value. */
  function ListCost(es: seq<Entry>): nat {
    if es == [] then 0
    else
      var e := es[0];
      8 + (if e.space == 0 then 5 else if e.space == 1 then 8 else 9) + |e.name| + |e.value| + ListCost(es[1..])
  }

  lemma {:induction false} ListCostIs(es: seq<Entry>)
    requires forall i :: 0 <= i < |es| ==> es[i].space < 3
    ensures Charges(Meanings(es)) == ListCost(es)
    decreases |es|
  {
    if es != [] {
      ListCostIs(es[1..]);
      assert Meanings(es)[1..] == Meanings(es[1..]);
    }
  }

  lemma {:induction false} MeaningsAt(es: seq<Entry>, i: nat)
    requires i < |es|
    ensures Meanings(es)[i] == Meaning(es[i])
    decreases i
  {
    hide Meaning;
    if i > 0 {
      MeaningsAt(es[1..], i - 1);
    }
  }

  lemma FullNameIs(e: Entry, name: seq<Byte>)
    requires e.space < 3
    ensures IsFullName(e, name) <==> Meaning(e).name == name
  {
  }

  lemma {:induction false} GiverIsLast(es: seq<Entry>, i: int, name: seq<Byte>)
    requires Gives(es, i, name) && forall j :: 0 <= j < |es| ==> es[j].space < 3
    ensures LastOfName(Meanings(es), i) && Meanings(es)[i] == Pair(name, es[i].value)
  {
    hide Meaning, Meanings, IsFullName;
    var ps := Meanings(es);
    MeaningsAt(es, i);
    FullNameIs(es[i], name);
    MeaningValue(es[i]);
    forall j | i < j < |ps|
      ensures ps[j].name != ps[i].name
    {
      MeaningsAt(es, j);
      FullNameIs(es[j], name);
    }
  }

  lemma {:induction false} NameHasGiver(es: seq<Entry>, name: seq<Byte>) returns (i: int)
    requires Named(Meanings(es), name) && forall j :: 0 <= j < |es| ==> es[j].space < 3
    ensures Gives(es, i, name)
  {
    hide Meaning, Meanings, IsFullName;
    var ps := Meanings(es);
    var k :| 0 <= k < |ps| && ps[k].name == name;
    MeaningsAt(es, k);
    FullNameIs(es[k], name);
    i := LastFrom(es, k, name);
  }

  lemma {:induction false} MapOfMeanings(es: seq<Entry>)
    requires forall i :: 0 <= i < |es| ==> es[i].space < 3
    ensures Holding(AsMap(map[], Meanings(es)), es)
  {
    hide Meanings, AsMap, Gives, Named, LastOfName;
    var ps := Meanings(es);
    var m := AsMap(map[], ps);
    AsMapHolds(map[], ps);
    forall name | name in m
      ensures exists i :: Gives(es, i, name)
    {
      var i := NameHasGiver(es, name);
    }
    forall i, name | Gives(es, i, name)
      ensures 0 <= i < |es| && name in m && m[name] == es[i].value
    {
      GiverIsLast(es, i, name);
      LastIsIndex(ps, i);
    }
  }

  lemma LastIsIndex(ps: seq<Pair>, i: int)
    requires LastOfName(ps, i)
    ensures 0 <= i < |ps|
  {
  }

  lemma MeaningValue(e: Entry)
    ensures Meaning(e).value == e.value
  {
  }

  lemma {:induction false} LastFrom(es: seq<Entry>, k: nat, name: seq<Byte>) returns (i: nat)
    requires k < |es| && IsFullName(es[k], name)
    ensures Gives(es, i, name)
    decreases |es| - k
  {
    if j :| k < j < |es| && IsFullName(es[j], name) {
      i := LastFrom(es, j, name);
    } else {
      i := k;
    }
  }

  /** The attributes of a stored list, inline and out-of-line, are read back, all of them and
      nothing else, if and only if their cost is within the ceiling. */
  lemma AttributesReadBack(fs: FS, st: Storage, kv: nat, s: seq<Byte>, k: nat, es: seq<Entry>, ceiling: nat)
    requires Region(fs, st, kv, s) && k < |s| && Holds(s, k, EncodeEntries(st, s, es))
    requires forall i :: 0 <= i < |es| ==> EntryOk(st, s, es[i])
    ensures var r := Attributes(fs, kv, RefAt(st, s, k), |es|, ceiling);
            if ListCost(es) <= ceiling then r.Ok? && Holding(r.value, es) else r == Err(TooLarge)
  {
    hide Region, EncodeEntries, CursorAt, OpenKv, ReadPairs, RefAt, Holding, AsMap;
    var c := OpensInRegion(fs, st, kv, s, k);
    ListReadsBack(fs, st, kv, s, k, c, es, ceiling);
    ListCostIs(es);
    MapOfMeanings(es);
  }

  // ----- Lists that are refused -----

  /** An unknown namespace, or a name over 8192 bytes. */
  lemma BadNames(fs: FS, kv: int, c: Cursor)
    requires ReadBytes(fs, c, 4).Ok?
    ensures var (hdr, c1) := ReadBytes(fs, c, 4).value;
            && (U16(hdr[2..4]) > 8192 ==> ReadPair(fs, kv, c) == Err(Corrupt))
            && (U16(hdr[2..4]) <= 8192 && ReadBytes(fs, c1, U16(hdr[2..4])).Ok? && U16(hdr[0..2]) % 256 > 2 ==>
                  ReadPair(fs, kv, c) == Err(Corrupt))
  {
    hide ReadBytes, ReadValue, U16;
  }

  /** An inline value over 8192 bytes, a reference that is not 8 bytes long, or one that names a
      value over 8192 bytes. Bit 8 of the type tells the two forms apart. */
  lemma BadValues(fs: FS, kv: int, c: Cursor, typ: nat)
    requires ReadBytes(fs, c, 4).Ok?
    ensures var vsize := U32(ReadBytes(fs, c, 4).value.0);
            if typ / 256 % 2 == 0 then vsize > 8192 ==> ReadValue(fs, kv, c, typ) == Err(Corrupt)
            else vsize != 8 ==> ReadValue(fs, kv, c, typ) == Err(Corrupt)
  {
    hide ReadBytes, ReadValueAt, U32;
  }

  /** Each pair is paid for before it is read: with less than 8 bytes left the list is too large
      whatever follows, otherwise a pair that cannot be read is the error of the list. */
  lemma PaidBeforeRead(fs: FS, kv: int, c: Cursor, count: nat, budget: int)
    requires count > 0
    ensures budget < 8 ==> ReadPairs(fs, kv, c, count, budget) == Err(TooLarge)
    ensures budget >= 8 && ReadPair(fs, kv, c).Err? ==>
              ReadPairs(fs, kv, c, count, budget) == Err(ReadPair(fs, kv, c).error)
  {
    hide ReadPair;
  }

  lemma BadReference(fs: FS, kv: int, ref: nat)
    requires OpenKv(fs, kv, ref).Ok? && ReadBytes(fs, OpenKv(fs, kv, ref).value, 4).Ok?
    ensures U32(ReadBytes(fs, OpenKv(fs, kv, ref).value, 4).value.0) > 8192 ==> ReadValueAt(fs, kv, ref) == Err(Corrupt)
  {
    hide ReadBytes, U32, OpenKv;
  }

  // ----- readXattrPairs -----

  /** readXattrPairs: one cursor updated in place, a running budget, a growing map. It starts at
      most one iteration for every 8 bytes of the ceiling, and one more. */
  method ReadXattrPairs(fs: FS, kv: int, ref: nat, count: nat, ceiling: nat)
    returns (r: Result<map<seq<Byte>, seq<Byte>>>, started: nat)
    ensures r == Attributes(fs, kv, ref, count, ceiling)
    ensures started <= ceiling / 8 + 1
  {
    hide ReadPair, ReadBytes, OpenCursor, I64, RefBlock, RefOffset;
    started := 0;
    var opening := NewMetaCursor(fs, I64(kv + RefBlock(ref)), RefOffset(ref));
    if opening.Err? {
      return Err(opening.error), started;
    }
    var c := opening.value;
    ghost var whole := ReadPairs(fs, kv, c.View(), count, ceiling);
    var out: map<seq<Byte>, seq<Byte>> := map[];
    var budget: int := ceiling;
    for i := 0 to count
      invariant fresh(c) && c.fs == fs
      invariant 0 <= budget && 8 * i <= ceiling - budget && started == i
      invariant var rest := ReadPairs(fs, kv, c.View(), count - i, budget);
                && whole.Ok? == rest.Ok? && (whole.Err? ==> whole.error == rest.error)
                && (whole.Ok? ==> AsMap(map[], whole.value) == AsMap(out, rest.value))
    {
      started := i + 1;
      ghost var view, had := c.View(), budget;
      budget := budget - 8;
      if budget < 0 {
        return Err(TooLarge), started;
      }
      var pair := ReadPairInPlace(c, kv);
      if pair.Err? {
        return Err(pair.error), started;
      }
      budget := budget - (|pair.value.name| + |pair.value.value|);
      if budget < 0 {
        return Err(TooLarge), started;
      }
      ghost var rest := ReadPairs(fs, kv, c.View(), count - i - 1, budget);
      if rest.Ok? {
        assert ([pair.value] + rest.value)[1..] == rest.value;
      }
      out := out[pair.value.name := pair.value.value];
    }
    return Ok(out), started;
  }

  /** The body of the loop, up to the value. */
  method ReadPairInPlace(c: MetaCursor, kv: int) returns (r: Result<Pair>)
    modifies c
    ensures var spec := ReadPair(c.fs, kv, old(c.View()));
            if spec.Ok? then r == Ok(spec.value.0) && c.View() == spec.value.1 else r == Err(spec.error)
  {
    hide ReadBytes, ReadValueAt;
    var keyHdr, _ := c.ReadN(4);
    if keyHdr.Err? {
      return Err(keyHdr.error);
    }
    var typ, nameSize := U16(keyHdr.value[0..2]), U16(keyHdr.value[2..4]);
    if nameSize > META_MAX {
      return Err(Corrupt);
    }
    var name, _ := c.ReadN(nameSize);
    if name.Err? {
      return Err(name.error);
    }
    var prefix := Prefix(typ);
    if prefix.None? {
      return Err(Corrupt);
    }
    var valHdr, _ := c.ReadN(4);
    if valHdr.Err? {
      return Err(valHdr.error);
    }
    var vsize := U32(valHdr.value);
    if IsOutOfLine(typ) {
      if vsize != 8 {
        return Err(Corrupt);
      }
      var refBytes, _ := c.ReadN(8);
      if refBytes.Err? {
        return Err(refBytes.error);
      }
      var value := ReadValueAt(c.fs, kv, U64(refBytes.value));
      if value.Err? {
        return Err(value.error);
      }
      return Ok(Pair(prefix.value + name.value, value.value));
    }
    if vsize > META_MAX {
      return Err(Corrupt);
    }
    var value, _ := c.ReadN(vsize);
    if value.Err? {
      return Err(value.error);
    }
    return Ok(Pair(prefix.value + name.value, value.value));
  }
}
