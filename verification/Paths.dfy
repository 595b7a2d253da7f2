/** Path resolution with nested symbolic links (path.go). */
module Paths {
  import opened Bytes
  import opened Inodes
  import opened Directory

  const SLASH: Byte := 47
  const DOT: Byte := 46
  const MAX_HOPS: nat := 40

  type Name = seq<Byte>

  // ----- splitPath -----

  /** strings.Split(p, "/"). */
  function Split(p: seq<Byte>): (r: seq<Name>)
    ensures |r| >= 1
  {
    if p == [] then [[]]
    else
      var rest := Split(p[1..]);
      if p[0] == SLASH then [[]] + rest else [[p[0]] + rest[0]] + rest[1..]
  }

  predicate Meaningful(name: Name) {
    name != [] && name != [DOT]
  }

  function Filter(raw: seq<Name>): seq<Name> {
    if raw == [] then []
    else (if Meaningful(raw[0]) then [raw[0]] else []) + Filter(raw[1..])
  }

  function Components(p: seq<Byte>): seq<Name> {
    Filter(Split(p))
  }

  lemma {:induction false} FilterAppend(a: seq<Name>, b: seq<Name>)
    ensures Filter(a + b) == Filter(a) + Filter(b)
  {
    if a == [] {
      assert a + b == b;
    } else {
      assert (a + b)[1..] == a[1..] + b;
      FilterAppend(a[1..], b);
    }
  }

  method SplitPath(p: seq<Byte>) returns (out: seq<Name>)
    ensures out == Components(p)
  {
    var raw := Split(p);
    out := [];
    for i := 0 to |raw|
      invariant out == Filter(raw[..i])
    {
      assert raw[..i + 1] == raw[..i] + [raw[i]];
      FilterAppend(raw[..i], [raw[i]]);
      if raw[i] == [] || raw[i] == [DOT] {
        continue;
      }
      out := out + [raw[i]];
    }
    assert raw[..|raw|] == raw;
  }

  lemma {:induction false} SplitAtSlash(p: seq<Byte>, q: seq<Byte>)
    ensures Split(p + [SLASH] + q) == Split(p) + Split(q)
  {
    var whole := p + [SLASH] + q;
    if p == [] {
      assert whole[1..] == q;
    } else {
      assert whole[1..] == p[1..] + [SLASH] + q;
      SplitAtSlash(p[1..], q);
    }
  }

  /** The components of p/q are those of p and then those of q. */
  lemma ComponentsJoin(p: seq<Byte>, q: seq<Byte>)
    ensures Components(p + [SLASH] + q) == Components(p) + Components(q)
  {
    SplitAtSlash(p, q);
    FilterAppend(Split(p), Split(q));
  }

  /** A name that can stand in a directory and be looked up by path. */
  predicate ValidName(name: Name) {
    Meaningful(name) && SLASH !in name
  }

  lemma {:induction false} SplitName(name: Name)
    requires SLASH !in name
    ensures Split(name) == [name]
  {
    if name != [] {
      SplitName(name[1..]);
      assert [name[0]] + name[1..] == name;
    }
  }

  /** The absolute path through the given names. */
  function Join(names: seq<Name>): seq<Byte> {
    if names == [] then [] else [SLASH] + names[0] + Join(names[1..])
  }

  lemma ComponentsOfName(name: Name)
    requires ValidName(name)
    ensures Components(name) == [name]
  {
    SplitName(name);
    assert [name][1..] == [];
    assert Filter([name]) == [name] + Filter([]);
  }

  lemma {:induction false} ComponentsOfJoin(names: seq<Name>)
    requires forall i :: 0 <= i < |names| ==> ValidName(names[i])
    ensures Components(Join(names)) == names
  {
    hide Components, ValidName;
    if names != [] {
      var n, tail := names[0], Join(names[1..]);
      ComponentsOfJoin(names[1..]);
      ComponentsOfName(n);
      EmptyPath();
      assert Join(names) == [] + [SLASH] + (n + tail);
      ComponentsJoin([], n + tail);
      if tail == [] {
        assert n + tail == n;
      } else {
        var x := tail[1..];
        assert n + tail == n + [SLASH] + x && tail == [] + [SLASH] + x;
        ComponentsJoin(n, x);
        ComponentsJoin([], x);
      }
      assert [n] + names[1..] == names;
    } else {
      EmptyPath();
    }
  }

  lemma EmptyPath()
    ensures Components([]) == []
  {
  }

  /** A single segment is kept as it is unless it is empty or ".". */
  lemma ComponentsOfSegment(segment: seq<Byte>)
    requires 47 !in segment
    ensures Components(segment) == if segment == [] || segment == [46] then [] else [segment]
  {
    SplitName(segment);
    var raw := [segment];
    assert raw[1..] == [] && Filter(raw[1..]) == [];
    assert Filter(raw) == (if Meaningful(segment) then [segment] else []) + Filter(raw[1..]);
  }

  /** ... wherever it stands in a path; in particular ".." is kept. */
  lemma SegmentInPath(p: seq<Byte>, segment: seq<Byte>, q: seq<Byte>)
    requires 47 !in segment
    ensures Components(p + [47] + segment + [47] + q) ==
            Components(p) + (if segment == [] || segment == [46] then [] else [segment]) + Components(q)
  {
    hide Components;
    ComponentsJoin(p + [47] + segment, q);
    ComponentsJoin(p, segment);
    ComponentsOfSegment(segment);
  }

  /** "/./" in a path is a separator and nothing else. */
  lemma DotsAreDropped(p: seq<Byte>, q: seq<Byte>)
    ensures Components(p + [47, 46, 47] + q) == Components(p) + Components(q)
  {
    hide Components;
    SegmentInPath(p, [46], q);
    assert p + [47, 46, 47] + q == p + [47] + [46] + [47] + q;
    assert Components(p) + [] == Components(p);
  }

  lemma {:induction false} SplitHasNoSlash(p: seq<Byte>)
    ensures forall i :: 0 <= i < |Split(p)| ==> 47 !in Split(p)[i]
  {
    if p != [] {
      SplitHasNoSlash(p[1..]);
    }
  }

  lemma {:induction false} FilterKeeps(raw: seq<Name>)
    ensures forall x :: x in Filter(raw) <==> x in raw && x != [] && x != [46]
  {
    if raw != [] {
      FilterKeeps(raw[1..]);
      assert raw == [raw[0]] + raw[1..];
    }
  }

  /** No component of a path is empty, is "." or has a slash in it. */
  lemma ComponentsAreNames(p: seq<Byte>)
    ensures forall x :: x in Components(p) ==> x != [] && x != [46] && 47 !in x
  {
    hide Split, Filter;
    SplitHasNoSlash(p);
    FilterKeeps(Split(p));
  }

  // ----- resolveFrom -----

  /** What resolution needs of an image: decoding an inode, listing a directory, the root. */
  datatype Lookup = Lookup(inode: nat -> Result<Inode>, list: Inode -> Result<seq<DirEntry>>, root: nat)

  /** The first entry with that name. */
  function FindEntry(entries: seq<DirEntry>, name: Name): (r: Option<DirEntry>)
    ensures r.Some? ==> r.value in entries && r.value.name == name
    ensures r.None? ==> forall i :: 0 <= i < |entries| ==> entries[i].name != name
  {
    if entries == [] then None
    else if entries[0].name == name then Some(entries[0])
    else FindEntry(entries[1..], name)
  }

  /** Of several entries with one name the first is found. */
  lemma {:induction false} FindsFirst(entries: seq<DirEntry>, name: Name, i: nat)
    requires i < |entries| && entries[i].name == name && forall j :: 0 <= j < i ==> entries[j].name != name
    ensures FindEntry(entries, name) == Some(entries[i])
    decreases i
  {
    if i > 0 {
      FindsFirst(entries[1..], name, i - 1);
    }
  }

  function Child(img: Lookup, dir: Inode, name: Name): Result<Inode> {
    if !dir.IsDir() then Err(NotDirectory)
    else
      var entries :- img.list(dir);
      match FindEntry(entries, name)
      case None => Err(NotFound)
      case Some(e) => img.inode(e.ref)
  }

  /** Where a link's target starts from: the root for an absolute target. */
  function LinkBase(img: Lookup, dir: Inode, link: Inode): Result<Inode> {
    if link.target != [] && link.target[0] == SLASH then img.inode(img.root) else Ok(dir)
  }

  /** Whether the link met at the first of `parts` is followed. */
  predicate Followed(child: Inode, parts: seq<Name>, follow: bool) {
    child.IsSymlink() && (|parts| > 1 || follow)
  }

  function HopsLeft(hops: nat): nat {
    if hops > MAX_HOPS then 0 else MAX_HOPS + 1 - hops
  }

  /** The reference form: one component at a time. */
  function Walk(img: Lookup, cur: Inode, parts: seq<Name>, follow: bool, hops: nat): Result<Inode>
    requires hops <= MAX_HOPS
    decreases HopsLeft(hops), 0, |parts|
  {
    if parts == [] then Ok(cur)
    else
      var child :- Child(img, cur, parts[0]);
      if Followed(child, parts, follow) then
        var base :- LinkBase(img, cur, child);
        var next :- ResolveFrom(img, base, child.target, true, hops + 1);
        Walk(img, next, parts[1..], follow, hops)
      else
        Walk(img, child, parts[1..], follow, hops)
  }

  function ResolveFrom(img: Lookup, start: Inode, path: seq<Byte>, follow: bool, hops: nat): Result<Inode>
    decreases HopsLeft(hops), 1
  {
    if hops > MAX_HOPS then Err(TooManyLinks) else Walk(img, start, Components(path), follow, hops)
  }

  function Resolve(img: Lookup, path: seq<Byte>, follow: bool): Result<Inode> {
    var root :- img.inode(img.root);
    ResolveFrom(img, root, path, follow, 0)
  }

  /** resolveFrom as the source runs it: a loop over the components, recursing on links. */
  method ResolveFromLoop(img: Lookup, start: Inode, path: seq<Byte>, follow: bool, hops: nat) returns (r: Result<Inode>)
    ensures r == ResolveFrom(img, start, path, follow, hops)
    decreases HopsLeft(hops)
  {
    hide Components, FindEntry;
    if hops > MAX_HOPS {
      return Err(TooManyLinks);
    }
    var parts := SplitPath(path);
    var cur := start;
    assert parts[0..] == parts;
    for i := 0 to |parts|
      invariant Walk(img, start, parts, follow, hops) == Walk(img, cur, parts[i..], follow, hops)
    {
      assert parts[i..][0] == parts[i] && parts[i..][1..] == parts[i + 1..];
      if !cur.IsDir() {
        return Err(NotDirectory);
      }
      var entries := img.list(cur);
      if entries.Err? {
        return Err(entries.error);
      }
      var found := LookUp(entries.value, parts[i]);
      if found.None? {
        return Err(NotFound);
      }
      var child := img.inode(found.value.ref);
      if child.Err? {
        return Err(child.error);
      }
      var last := i == |parts| - 1;
      if child.value.IsSymlink() && (!last || follow) {
        var target := child.value.target;
        var base := Ok(cur);
        if target != [] && target[0] == SLASH {
          base := img.inode(img.root);
          if base.Err? {
            return Err(base.error);
          }
        }
        child := ResolveFromLoop(img, base.value, target, true, hops + 1);
        if child.Err? {
          return Err(child.error);
        }
      }
      cur := child.value;
    }
    return Ok(cur);
  }

  method LookUp(entries: seq<DirEntry>, name: Name) returns (r: Option<DirEntry>)
    ensures r == FindEntry(entries, name)
  {
    assert entries[0..] == entries;
    for i := 0 to |entries|
      invariant FindEntry(entries, name) == FindEntry(entries[i..], name)
    {
      assert entries[i..][0] == entries[i] && entries[i..][1..] == entries[i + 1..];
      if entries[i].name == name {
        return Some(entries[i]);
      }
    }
    return None;
  }

  // ----- Resolution as a big-step relation -----

  /** A finite derivation: arriving, stepping into a child, or resolving a link to `mid` and
      going on from there. */
  datatype Derivation =
    | Arrive
    | Descend(rest: Derivation)
    | Follow(mid: Inode, link: Derivation, rest: Derivation)

  ghost predicate Derives(img: Lookup, d: Derivation, cur: Inode, parts: seq<Name>, follow: bool, r: Inode)
    decreases d
  {
    match d
    case Arrive => parts == [] && r == cur
    case Descend(rest) =>
      && parts != []
      && var child := Child(img, cur, parts[0]);
         child.Ok? && !Followed(child.value, parts, follow) &&
         Derives(img, rest, child.value, parts[1..], follow, r)
    case Follow(mid, link, rest) =>
      && parts != []
      && var child := Child(img, cur, parts[0]);
         child.Ok? && Followed(child.value, parts, follow) &&
         var base := LinkBase(img, cur, child.value);
         && base.Ok?
         && Derives(img, link, base.value, Components(child.value.target), true, mid)
         && Derives(img, rest, mid, parts[1..], follow, r)
  }

  /** How deeply link resolutions nest in a derivation. */
  ghost function Nesting(d: Derivation): nat {
    match d
    case Arrive => 0
    case Descend(rest) => Nesting(rest)
    case Follow(_, link, rest) =>
      if 1 + Nesting(link) > Nesting(rest) then 1 + Nesting(link) else Nesting(rest)
  }

  lemma {:induction false} Completeness(img: Lookup, d: Derivation, cur: Inode, parts: seq<Name>, follow: bool,
                                        r: Inode, hops: nat)
    requires Derives(img, d, cur, parts, follow, r) && hops + Nesting(d) <= MAX_HOPS
    ensures Walk(img, cur, parts, follow, hops) == Ok(r)
    decreases d
  {
    hide Components, Child, LinkBase;
    match d
    case Arrive =>
    case Descend(rest) =>
      Completeness(img, rest, Child(img, cur, parts[0]).value, parts[1..], follow, r, hops);
    case Follow(mid, link, rest) =>
      var child := Child(img, cur, parts[0]).value;
      var base := LinkBase(img, cur, child).value;
      Completeness(img, link, base, Components(child.target), true, mid, hops + 1);
      Completeness(img, rest, mid, parts[1..], follow, r, hops);
  }

  lemma {:induction false} Soundness(img: Lookup, cur: Inode, parts: seq<Name>, follow: bool, hops: nat)
    returns (d: Derivation)
    requires hops <= MAX_HOPS && Walk(img, cur, parts, follow, hops).Ok?
    ensures Derives(img, d, cur, parts, follow, Walk(img, cur, parts, follow, hops).value)
    ensures hops + Nesting(d) <= MAX_HOPS
    decreases HopsLeft(hops), |parts|
  {
    hide Components, Child, LinkBase;
    if parts == [] {
      return Arrive;
    }
    var child := Child(img, cur, parts[0]).value;
    if Followed(child, parts, follow) {
      var base := LinkBase(img, cur, child).value;
      var mid := ResolveFrom(img, base, child.target, true, hops + 1).value;
      var link := Soundness(img, base, Components(child.target), true, hops + 1);
      var rest := Soundness(img, mid, parts[1..], follow, hops);
      d := Follow(mid, link, rest);
    } else {
      var rest := Soundness(img, child, parts[1..], follow, hops);
      d := Descend(rest);
    }
  }

  /** Resolution succeeds with an inode exactly when some finite derivation whose nesting stays
      within the hop limit yields it. */
  lemma ResolvesIffDerives(img: Lookup, start: Inode, path: seq<Byte>, follow: bool, hops: nat, r: Inode)
    ensures ResolveFrom(img, start, path, follow, hops) == Ok(r) <==>
            exists d :: Derives(img, d, start, Components(path), follow, r) && hops + Nesting(d) <= 40
  {
    hide Components, Walk, Derives;
    if ResolveFrom(img, start, path, follow, hops) == Ok(r) {
      var d := Soundness(img, start, Components(path), follow, hops);
    }
    if d :| Derives(img, d, start, Components(path), follow, r) && hops + Nesting(d) <= MAX_HOPS {
      Completeness(img, d, start, Components(path), follow, r, hops);
    }
  }

  /** A resolution that succeeds with some hops used up succeeds alike with fewer used up. */
  lemma FewerHopsUsed(img: Lookup, start: Inode, path: seq<Byte>, follow: bool, hops: nat, fewer: nat)
    requires fewer <= hops && ResolveFrom(img, start, path, follow, hops).Ok?
    ensures ResolveFrom(img, start, path, follow, fewer) == ResolveFrom(img, start, path, follow, hops)
  {
    hide Components, Walk, Derives, ResolveFrom;
    var r := ResolveFrom(img, start, path, follow, hops).value;
    ResolvesIffDerives(img, start, path, follow, hops, r);
    ResolvesIffDerives(img, start, path, follow, fewer, r);
  }

  // ----- Algebra -----

  lemma {:induction false} WalkAppend(img: Lookup, cur: Inode, p: seq<Name>, q: seq<Name>, follow: bool, hops: nat)
    requires hops <= MAX_HOPS && q != []
    ensures Walk(img, cur, p + q, follow, hops) ==
            (var mid := Walk(img, cur, p, true, hops);
             if mid.Err? then mid else Walk(img, mid.value, q, follow, hops))
    decreases |p|
  {
    hide Components, Child, LinkBase, ResolveFrom;
    if p == [] {
      assert p + q == q;
    } else {
      assert (p + q)[0] == p[0] && (p + q)[1..] == p[1..] + q;
      var child := Child(img, cur, p[0]);
      if child.Ok? {
        if child.value.IsSymlink() {
          var base := LinkBase(img, cur, child.value);
          if base.Ok? {
            var next := ResolveFrom(img, base.value, child.value.target, true, hops + 1);
            if next.Ok? {
              WalkAppend(img, next.value, p[1..], q, follow, hops);
            }
          }
        } else {
          WalkAppend(img, child.value, p[1..], q, follow, hops);
        }
      }
    }
  }

  /** Resolving p/q is resolving p with links followed and then q from there, errors included. */
  lemma ResolveInTwoSteps(img: Lookup, start: Inode, p: seq<Byte>, q: seq<Byte>, follow: bool, hops: nat)
    requires Components(q) != []
    ensures ResolveFrom(img, start, p + [SLASH] + q, follow, hops) ==
            (var mid := ResolveFrom(img, start, p, true, hops);
             if mid.Err? then mid else ResolveFrom(img, mid.value, q, follow, hops))
  {
    hide Components, Walk;
    if hops <= MAX_HOPS {
      ComponentsJoin(p, q);
      WalkAppend(img, start, Components(p), Components(q), follow, hops);
    }
  }

  ghost predicate RootIsDir(img: Lookup) {
    img.inode(img.root).Ok? ==> img.inode(img.root).value.IsDir()
  }

  lemma {:induction false} WalkLeavesLinks(img: Lookup, cur: Inode, parts: seq<Name>, hops: nat)
    requires RootIsDir(img) && hops <= MAX_HOPS && !cur.IsSymlink()
    ensures var r := Walk(img, cur, parts, true, hops); r.Ok? ==> !r.value.IsSymlink()
    decreases HopsLeft(hops), |parts|
  {
    hide Components, FindEntry;
    if parts != [] {
      var child := Child(img, cur, parts[0]);
      if child.Ok? {
        if child.value.IsSymlink() {
          var base := LinkBase(img, cur, child.value);
          if base.Ok? && hops + 1 <= MAX_HOPS {
            WalkLeavesLinks(img, base.value, Components(child.value.target), hops + 1);
            var next := ResolveFrom(img, base.value, child.value.target, true, hops + 1);
            if next.Ok? {
              WalkLeavesLinks(img, next.value, parts[1..], hops);
            }
          }
        } else {
          WalkLeavesLinks(img, child.value, parts[1..], hops);
        }
      }
    }
  }

  /** With a directory as root, a following resolve never ends on a symbolic link. */
  lemma NeverALink(img: Lookup, path: seq<Byte>)
    requires RootIsDir(img)
    ensures var r := Resolve(img, path, true); r.Ok? ==> !r.value.IsSymlink()
  {
    hide Components, Walk;
    if img.inode(img.root).Ok? {
      WalkLeavesLinks(img, img.inode(img.root).value, Components(path), 0);
    }
  }

  // ----- Cycles -----

  /** One link of a cycle: it lies under `name` in `dir`; its target goes through `pre` to the
      directory of the next link and then names that link, with `post` left over. */
  datatype Knot = Knot(dir: Inode, name: Name, link: Inode, base: Inode, pre: seq<Name>, post: seq<Name>)

  ghost predicate IsKnot(img: Lookup, k: Knot, next: Knot) {
    && Child(img, k.dir, k.name) == Ok(k.link) && k.link.IsSymlink()
    && LinkBase(img, k.dir, k.link) == Ok(k.base)
    && Components(k.link.target) == k.pre + ([next.name] + k.post)
    && forall hops: nat | hops <= MAX_HOPS ::
         var w := Walk(img, k.base, k.pre, true, hops);
         w.Ok? ==> w.value == next.dir
  }

  /** Knot i leads to the one after it, the last to the first. */
  ghost predicate LeadsOn(img: Lookup, knots: seq<Knot>, i: nat)
    requires i < |knots|
  {
    IsKnot(img, knots[i], knots[if i + 1 == |knots| then 0 else i + 1])
  }

  ghost predicate IsCycle(img: Lookup, knots: seq<Knot>) {
    forall i :: 0 <= i < |knots| ==> LeadsOn(img, knots, i)
  }

  /** Every path that enters a cycle of links, whatever the links' targets pass through on the
      way, ends in an error. */
  lemma {:induction false} CyclesFail(img: Lookup, knots: seq<Knot>, i: nat, rest: seq<Name>, follow: bool, hops: nat)
    requires IsCycle(img, knots) && i < |knots| && hops <= MAX_HOPS && (rest != [] || follow)
    ensures Walk(img, knots[i].dir, [knots[i].name] + rest, follow, hops).Err?
    decreases MAX_HOPS - hops
  {
    hide Components, Child, LinkBase;
    var k, j := knots[i], if i + 1 == |knots| then 0 else i + 1;
    var next := knots[j];
    assert LeadsOn(img, knots, i) && IsKnot(img, k, next);
    var parts := [k.name] + rest;
    if hops < MAX_HOPS {
      WalkAppend(img, k.base, k.pre, [next.name] + k.post, true, hops + 1);
      CyclesFail(img, knots, j, k.post, true, hops + 1);
    }
  }
}
