/** The tree an image is built from, and the order directories are listed in. */
module Tree {
  import opened Bytes
  import opened Directory
  import opened Paths
  import opened Inodes
  import opened Metadata

  /** defaultBlockSize, the data block size of every image built. */
  const BLOCK_SIZE: nat := 131072

  /** node: the type bits of its mode are the constructor, the permission bits are `perm`. */
  datatype Node =
    | File(perm: nat, data: seq<Byte>)
    | Link(perm: nat, target: seq<Byte>)
    | Dir(perm: nat, kids: seq<Kid>)

  datatype Kid = Kid(name: Name, node: Node)

  /** dirEntryType, which is also the inode type the writer uses. */
  function KindCode(n: Node): (t: nat)
    ensures 1 <= t <= 3
  {
    match n
    case Dir(_, _) => BASIC_DIR
    case Link(_, _) => BASIC_SYMLINK
    case File(_, _) => BASIC_FILE
  }

  ghost predicate DistinctNames(kids: seq<Kid>) {
    forall i, j :: 0 <= i < j < |kids| ==> kids[i].name != kids[j].name
  }

  /** What the format can hold and the writer does not check: 32-bit file sizes, targets of at
      most 8192 bytes, names whose length fits 16 bits and that a path can spell, distinct
      siblings. */
  ghost predicate WellFormed(n: Node) {
    n.perm < 0x1000 &&
    match n
    case File(_, data) => |data| < TWO_32
    case Link(_, target) => |target| <= META_MAX
    case Dir(_, kids) =>
      && DistinctNames(kids)
      && forall i :: 0 <= i < |kids| ==>
           ValidName(kids[i].name) && |kids[i].name| <= TWO_16 && WellFormed(kids[i].node)
  }

  /** The reader accepts names of at most 256 bytes. */
  ghost predicate ShortNames(kids: seq<Kid>) {
    forall i :: 0 <= i < |kids| ==> |kids[i].name| <= 256
  }

  /** The child with a name. */
  ghost function KidNamed(kids: seq<Kid>, name: Name): (r: Option<nat>)
    ensures r.Some? ==> r.value < |kids| && kids[r.value].name == name
  {
    if exists i :: 0 <= i < |kids| && kids[i].name == name
    then var i :| 0 <= i < |kids| && kids[i].name == name; Some(i)
    else None
  }

  /** The node reached from n through a list of names, links not followed. */
  ghost function NodeAt(n: Node, path: seq<Name>): Option<Node>
    decreases |path|
  {
    if path == [] then Some(n)
    else if !n.Dir? then None
    else
      match KidNamed(n.kids, path[0])
      case None => None
      case Some(i) => NodeAt(n.kids[i].node, path[1..])
  }

  // ----- Listing order -----

  /** Byte-wise order of names, as Go compares strings. */
  predicate NameLe(a: Name, b: Name) {
    if a == [] then true
    else if b == [] then false
    else a[0] < b[0] || (a[0] == b[0] && NameLe(a[1..], b[1..]))
  }

  lemma {:induction false} NameLeTotal(a: Name, b: Name)
    ensures NameLe(a, b) || NameLe(b, a)
  {
    if a != [] && b != [] {
      NameLeTotal(a[1..], b[1..]);
    }
  }

  lemma {:induction false} NameLeTransitive(a: Name, b: Name, c: Name)
    requires NameLe(a, b) && NameLe(b, c)
    ensures NameLe(a, c)
  {
    if a != [] && a[0] == b[0] == c[0] {
      NameLeTransitive(a[1..], b[1..], c[1..]);
    }
  }

  /** The order of Go's strings, spelled out: a prefix comes first, otherwise the first byte in
      which the two differ decides. */
  ghost predicate InOrder(a: Name, b: Name) {
    a <= b || exists k :: FirstDifference(a, b, k)
  }

  ghost predicate FirstDifference(a: Name, b: Name, k: int) {
    0 <= k < |a| && k < |b| && a[..k] == b[..k] && a[k] < b[k]
  }

  lemma NoDifference(a: Name, b: Name)
    requires a != [] && b != [] && a[0] > b[0]
    ensures !InOrder(a, b)
  {
    assert forall k :: FirstDifference(a, b, k) && k > 0 ==> a[..k][0] == b[..k][0];
  }

  lemma {:induction false} NameLeIsInOrder(a: Name, b: Name)
    ensures NameLe(a, b) <==> InOrder(a, b)
  {
    if a != [] && b != [] {
      if a[0] == b[0] {
        NameLeIsInOrder(a[1..], b[1..]);
        OrderShifts(a, b);
      } else if a[0] < b[0] {
        assert FirstDifference(a, b, 0);
      } else {
        NoDifference(a, b);
      }
    }
  }

  /** A shared first byte plays no part. */
  lemma OrderShifts(a: Name, b: Name)
    requires a != [] && b != [] && a[0] == b[0]
    ensures InOrder(a, b) <==> InOrder(a[1..], b[1..])
  {
    var x, y := a[1..], b[1..];
    assert a == [a[0]] + x && b == [b[0]] + y;
    if k :| FirstDifference(a, b, k) {
      assert x[..k - 1] == a[..k][1..] && y[..k - 1] == b[..k][1..];
      assert FirstDifference(x, y, k - 1);
    }
    if k :| FirstDifference(x, y, k) {
      assert a[..k + 1] == [a[0]] + x[..k] && b[..k + 1] == [b[0]] + y[..k];
      assert FirstDifference(a, b, k + 1);
    }
    assert x <= y ==> a <= b;
    assert a <= b ==> x <= y;
  }

  ghost predicate SortedByName(es: seq<DirEntry>) {
    forall i, j :: 0 <= i < j < |es| ==> InOrder(es[i].name, es[j].name)
  }

  ghost predicate Ascending(es: seq<DirEntry>) {
    forall i, j :: 0 <= i < j < |es| ==> NameLe(es[i].name, es[j].name)
  }

  function InsertByName(e: DirEntry, es: seq<DirEntry>): (r: seq<DirEntry>)
    ensures multiset(r) == multiset(es) + multiset{e}
  {
    if es == [] || NameLe(e.name, es[0].name) then
      assert es == [] ==> multiset(es) == multiset{};
      [e] + es
    else
      assert es == [es[0]] + es[1..];
      [es[0]] + InsertByName(e, es[1..])
  }

  /** sort.Slice by name: an insertion sort stands in for the library's. */
  function SortByName(es: seq<DirEntry>): (r: seq<DirEntry>)
    ensures multiset(r) == multiset(es)
  {
    if es == [] then []
    else
      assert es == [es[0]] + es[1..];
      InsertByName(es[0], SortByName(es[1..]))
  }

  lemma SameElements(a: seq<DirEntry>, b: seq<DirEntry>)
    requires multiset(a) == multiset(b)
    ensures |a| == |b| && forall x :: x in a <==> x in b
  {
    assert |multiset(a)| == |multiset(b)|;
    assert forall x :: x in a <==> x in multiset(a);
    assert forall x :: x in b <==> x in multiset(b);
  }

  lemma {:induction false} InsertKeepsSorted(e: DirEntry, es: seq<DirEntry>)
    requires Ascending(es)
    ensures Ascending(InsertByName(e, es))
    decreases |es|
  {
    var r := InsertByName(e, es);
    if es == [] || NameLe(e.name, es[0].name) {
      forall j | 0 < j < |r|
        ensures NameLe(r[0].name, r[j].name)
      {
        if j > 1 {
          NameLeTransitive(e.name, es[0].name, es[j - 1].name);
        }
      }
    } else {
      var rest := InsertByName(e, es[1..]);
      InsertKeepsSorted(e, es[1..]);
      NameLeTotal(e.name, es[0].name);
      SameElements(rest, es[1..] + [e]);
      forall j | 0 < j < |r|
        ensures NameLe(r[0].name, r[j].name)
      {
        assert r[j] == rest[j - 1] && rest[j - 1] in es[1..] + [e];
      }
    }
  }

  lemma {:induction false} SortAscends(es: seq<DirEntry>)
    ensures Ascending(SortByName(es))
    decreases |es|
  {
    if es != [] {
      SortAscends(es[1..]);
      InsertKeepsSorted(es[0], SortByName(es[1..]));
    }
  }

  lemma SortSorts(es: seq<DirEntry>)
    ensures SortedByName(SortByName(es))
  {
    hide NameLe, InOrder, SortByName;
    var sorted := SortByName(es);
    SortAscends(es);
    forall i, j | 0 <= i < j < |sorted|
      ensures InOrder(sorted[i].name, sorted[j].name)
    {
      NameLeIsInOrder(sorted[i].name, sorted[j].name);
    }
  }
}
