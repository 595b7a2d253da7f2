/** Path resolution on the tree itself, links and the hop limit included, and that resolution
    over an image agrees with it. */
module TreePaths {
  import opened Bytes
  import opened Codecs
  import opened Metadata
  import opened Inodes
  import opened Directory
  import opened Paths
  import opened Tree
  import opened Layout
  import opened Placement
  import opened RoundTrip

  // ----- Resolution on the tree -----

  ghost function TreeChild(dir: Node, name: Name): Result<Node> {
    if !dir.Dir? then Err(NotDirectory)
    else
      match KidNamed(dir.kids, name)
      case None => Err(NotFound)
      case Some(i) => Ok(dir.kids[i].node)
  }

  /** A relative target starts from the directory that holds the link. */
  function TreeBase(root: Node, dir: Node, target: seq<Byte>): Node {
    if target != [] && target[0] == SLASH then root else dir
  }

  ghost function TreeWalk(root: Node, cur: Node, parts: seq<Name>, follow: bool, hops: nat): Result<Node>
    requires hops <= MAX_HOPS
    decreases HopsLeft(hops), 0, |parts|
  {
    if parts == [] then Ok(cur)
    else
      var child :- TreeChild(cur, parts[0]);
      if child.Link? && (|parts| > 1 || follow) then
        var next :- TreeFrom(root, TreeBase(root, cur, child.target), child.target, true, hops + 1);
        TreeWalk(root, next, parts[1..], follow, hops)
      else
        TreeWalk(root, child, parts[1..], follow, hops)
  }

  ghost function TreeFrom(root: Node, start: Node, path: seq<Byte>, follow: bool, hops: nat): Result<Node>
    decreases HopsLeft(hops), 1
  {
    if hops > MAX_HOPS then Err(TooManyLinks) else TreeWalk(root, start, Components(path), follow, hops)
  }

  /** What a path names in the tree, or why it names nothing. */
  ghost function TreeResolve(root: Node, path: seq<Byte>, follow: bool): Result<Node> {
    TreeFrom(root, root, path, follow, 0)
  }

  /** Without links on the way this is walking down the names. */
  lemma {:induction false} WalkIsNodeAt(root: Node, cur: Node, names: seq<Name>, follow: bool, hops: nat)
    requires hops <= MAX_HOPS && NodeAt(cur, names).Some?
    requires follow ==> names == [] || !NodeAt(cur, names).value.Link?
    ensures TreeWalk(root, cur, names, follow, hops) == Ok(NodeAt(cur, names).value)
    decreases |names|
  {
    hide KidNamed, Components;
    if names != [] {
      var kid := cur.kids[KidNamed(cur.kids, names[0]).value].node;
      assert NodeAt(kid, names[1..]) == NodeAt(cur, names);
      WalkIsNodeAt(root, kid, names[1..], follow, hops);
    }
  }

  lemma {:induction false} NamesAreValid(n: Node, names: seq<Name>)
    requires WellFormed(n) && NodeAt(n, names).Some?
    ensures forall i :: 0 <= i < |names| ==> ValidName(names[i])
    decreases |names|
  {
    hide ValidName, DistinctNames;
    if names != [] {
      var i := KidNamed(n.kids, names[0]).value;
      NamesAreValid(n.kids[i].node, names[1..]);
    }
  }

  /** The path of a node that is reached through directories names that node. */
  lemma TreeFindsNode(root: Node, names: seq<Name>, follow: bool)
    requires WellFormed(root) && NodeAt(root, names).Some?
    requires follow ==> names == [] || !NodeAt(root, names).value.Link?
    ensures TreeResolve(root, Join(names), follow) == Ok(NodeAt(root, names).value)
  {
    hide Components, WellFormed, NodeAt, TreeWalk, ValidName;
    NamesAreValid(root, names);
    ComponentsOfJoin(names);
    WalkIsNodeAt(root, root, names, follow, 0);
  }

  // ----- The image follows the tree -----

  /** in0 is what the inode of n decodes to in a finished image. */
  ghost predicate Stands(fs: FS, frags: bool, st: Storage, w: Snapshot, n: Node, p: Placed, in0: Inode) {
    Sound(fs, frags, st, w, n, p) && Shaped(w, n, p) && in0 == InodeOf(st, w, n, p)
  }

  /** The image's root reference is that of a tree that was written whole. */
  ghost predicate Rooted(fs: FS, st: Storage, w: Snapshot, p: Placed) {
    fs.sb.blockSize > 0 && Seated(w, p) && fs.sb.rootInode == RefOf(st, w, p)
  }

  lemma StandsDecoded(fs: FS, frags: bool, st: Storage, w: Snapshot, n: Node, p: Placed) returns (in0: Inode)
    requires Sound(fs, frags, st, w, n, p) && fs.sb.blockSize > 0
    ensures Seated(w, p) && ReadInode(fs, RefOf(st, w, p)) == Ok(in0) && Stands(fs, frags, st, w, n, p, in0)
  {
    hide Sound, ReadInode, RefOf, InodeOf;
    NodeDecodes(fs, frags, st, w, n, p);
    in0 := InodeOf(st, w, n, p);
  }

  lemma StandsShows(fs: FS, frags: bool, st: Storage, w: Snapshot, n: Node, p: Placed, in0: Inode)
    requires Stands(fs, frags, st, w, n, p, in0) && fs.sb.blockSize > 0
    ensures StandsFor(fs, in0, n)
    ensures ListingsBounded(st, w, n, p) ==> Represents(fs, in0, n)
    ensures in0.IsDir() <==> n.Dir?
    ensures in0.IsSymlink() <==> n.Link?
    ensures n.Link? ==> in0.target == n.target
  {
    hide Sound, Represents, StandsFor, InodeOf, ListingsBounded;
    NodeShows(fs, frags, st, w, n, p);
    InodeFields(st, w, n, p);
    if ListingsBounded(st, w, n, p) {
      NodeReads(fs, frags, st, w, n, p);
    }
  }

  /** The step from a directory to a name in it: right in any sound image, and complete when the
      listings below fit. */
  lemma ChildAgrees(fs: FS, frags: bool, st: Storage, w: Snapshot, n: Node, p: Placed, in0: Inode, name: Name)
    returns (q: Placed)
    requires Stands(fs, frags, st, w, n, p, in0) && fs.sb.blockSize > 0
    ensures var t, r := TreeChild(n, name), Child(LookupOf(fs), in0, name);
            && (r.Ok? ==> t.Ok? && Stands(fs, frags, st, w, t.value, q, r.value))
            && (ListingsBounded(st, w, n, p) ==>
                  if t.Err? then r == Err(t.error) else r.Ok? && ListingsBounded(st, w, t.value, q))
  {
    hide Sound, ReadInode, RefOf, KidNamed, InodeOf, LookupOf, FindEntry, ListingFits, Represents, StandsFor, Shaped,
         ReadDir;
    q := p;
    StandsShows(fs, frags, st, w, n, p, in0);
    if n.Dir? {
      var found := KidNamed(n.kids, name);
      if Child(LookupOf(fs), in0, name).Ok? {
        ChildIsRight(fs, frags, st, w, n, p, name);
      }
      if ListingsBounded(st, w, n, p) {
        LocalBound(st, w, n, p);
        ChildFound(fs, frags, st, w, n, p, name);
      }
      if found.Some? {
        KidSound(fs, frags, st, w, n, p, found.value);
        q := p.kids[found.value];
        var kid := StandsDecoded(fs, frags, st, w, n.kids[found.value].node, q);
      }
    }
  }

  /** Walking in the image and walking in the tree: where the image arrives, the tree arrives at
      the node of that inode; when the listings fit, the image arrives wherever the tree does
      and otherwise fails with the same error. */
  lemma {:induction false} WalkAgrees(fs: FS, frags: bool, st: Storage, w: Snapshot, root: Node, rp: Placed,
                                      n: Node, p: Placed, in0: Inode, parts: seq<Name>, follow: bool, hops: nat)
    returns (q: Placed)
    requires Sound(fs, frags, st, w, root, rp) && Rooted(fs, st, w, rp)
    requires Stands(fs, frags, st, w, n, p, in0) && hops <= MAX_HOPS
    ensures var t, r := TreeWalk(root, n, parts, follow, hops), Walk(LookupOf(fs), in0, parts, follow, hops);
            && (r.Ok? ==> t.Ok? && Stands(fs, frags, st, w, t.value, q, r.value))
            && (ListingsBounded(st, w, root, rp) && ListingsBounded(st, w, n, p) ==>
                  if t.Err? then r == Err(t.error) else r.Ok? && ListingsBounded(st, w, t.value, q))
    decreases HopsLeft(hops), |parts|
  {
    hide Sound, ReadInode, RefOf, Child, TreeChild, Components, Stands, Represents, StandsFor, ListingsBounded;
    q := p;
    if parts != [] {
      var kid := ChildAgrees(fs, frags, st, w, n, p, in0, parts[0]);
      var t, r := TreeChild(n, parts[0]), Child(LookupOf(fs), in0, parts[0]);
      if r.Ok? {
        StandsShows(fs, frags, st, w, t.value, kid, r.value);
        if t.value.Link? && (|parts| > 1 || follow) {
          q := LinkAgrees(fs, frags, st, w, root, rp, n, p, in0, t.value.target);
          var base, from := TreeBase(root, n, t.value.target), LinkBase(LookupOf(fs), in0, r.value).value;
          if hops < MAX_HOPS {
            var target := Components(t.value.target);
            var mid := WalkAgrees(fs, frags, st, w, root, rp, base, q, from, target, true, hops + 1);
            var next := ResolveFrom(LookupOf(fs), from, t.value.target, true, hops + 1);
            if next.Ok? {
              var there := TreeFrom(root, base, t.value.target, true, hops + 1).value;
              q := WalkAgrees(fs, frags, st, w, root, rp, there, mid, next.value, parts[1..], follow, hops);
            }
          }
        } else {
          q := WalkAgrees(fs, frags, st, w, root, rp, t.value, kid, r.value, parts[1..], follow, hops);
        }
      }
    }
  }

  /** Both start a link's target from the same place. */
  lemma LinkAgrees(fs: FS, frags: bool, st: Storage, w: Snapshot, root: Node, rp: Placed,
                   n: Node, p: Placed, in0: Inode, target: seq<Byte>) returns (q: Placed)
    requires Sound(fs, frags, st, w, root, rp) && Rooted(fs, st, w, rp)
    requires Stands(fs, frags, st, w, n, p, in0)
    ensures forall link: Inode :: link.target == target ==>
              var r := LinkBase(LookupOf(fs), in0, link);
              r.Ok? && Stands(fs, frags, st, w, TreeBase(root, n, target), q, r.value)
    ensures ListingsBounded(st, w, root, rp) && ListingsBounded(st, w, n, p) ==>
              ListingsBounded(st, w, TreeBase(root, n, target), q)
  {
    hide Sound, ReadInode, RefOf, Stands, ListingsBounded;
    q := p;
    if target != [] && target[0] == SLASH {
      q := rp;
      var in1 := StandsDecoded(fs, frags, st, w, root, rp);
    }
  }

  lemma ResolveAgrees(fs: FS, frags: bool, st: Storage, w: Snapshot, root: Node, rp: Placed, path: seq<Byte>,
                      follow: bool)
    returns (q: Placed)
    requires Sound(fs, frags, st, w, root, rp) && Rooted(fs, st, w, rp)
    ensures var t, r := TreeResolve(root, path, follow), Resolve(LookupOf(fs), path, follow);
            && (r.Ok? ==> t.Ok? && Stands(fs, frags, st, w, t.value, q, r.value))
            && (ListingsBounded(st, w, root, rp) ==>
                  if t.Err? then r == Err(t.error) else r.Ok? && ListingsBounded(st, w, t.value, q))
  {
    hide Sound, ReadInode, RefOf, Stands, Walk, TreeWalk, Components, ListingsBounded;
    var in0 := StandsDecoded(fs, frags, st, w, root, rp);
    q := WalkAgrees(fs, frags, st, w, root, rp, root, rp, in0, Components(path), follow, 0);
  }

  // ----- An image never misdirects -----

  /** Any path that resolves in the image resolves in the tree, to the node that the inode found
      stands for. */
  ghost predicate Honest(fs: FS, root: Node)
    requires fs.sb.blockSize > 0
  {
    forall path: seq<Byte>, follow: bool :: LeadsRight(fs, root, path, follow)
  }

  ghost predicate LeadsRight(fs: FS, root: Node, path: seq<Byte>, follow: bool)
    requires fs.sb.blockSize > 0
  {
    var t, r := TreeResolve(root, path, follow), Resolve(LookupOf(fs), path, follow);
    r.Ok? ==> t.Ok? && StandsFor(fs, r.value, t.value)
  }

  /** Names that do not fit their directory's listing can be lost; nothing else is found in their
      place, and what is found is what the tree has there. */
  lemma NeverMisdirects(fs: FS, frags: bool, st: Storage, w: Snapshot, root: Node, p: Placed)
    requires Sound(fs, frags, st, w, root, p) && Rooted(fs, st, w, p)
    ensures Honest(fs, root)
  {
    hide Sound, StandsFor, Represents, Resolve, TreeResolve, RefOf, LookupOf, Stands, ListingsBounded;
    forall path: seq<Byte>, follow: bool
      ensures LeadsRight(fs, root, path, follow)
    {
      var q := ResolveAgrees(fs, frags, st, w, root, p, path, follow);
      var t, r := TreeResolve(root, path, follow), Resolve(LookupOf(fs), path, follow);
      if r.Ok? {
        StandsShows(fs, frags, st, w, t.value, q, r.value);
      }
    }
  }

  // ----- What a faithful image is -----

  /** Any path, whether or not the tree has it, resolves in the image to what it names in the
      tree: to an inode that represents that node, or to the same error. */
  ghost predicate Faithful(fs: FS, root: Node)
    requires fs.sb.blockSize > 0
  {
    forall path: seq<Byte>, follow: bool :: Agrees(fs, root, path, follow)
  }

  ghost predicate Agrees(fs: FS, root: Node, path: seq<Byte>, follow: bool)
    requires fs.sb.blockSize > 0
  {
    var t, r := TreeResolve(root, path, follow), Resolve(LookupOf(fs), path, follow);
    if t.Err? then r == Err(t.error) else r.Ok? && Represents(fs, r.value, t.value)
  }

  lemma ReadyIsFaithful(fs: FS, frags: bool, st: Storage, w: Snapshot, root: Node, p: Placed)
    requires Ready(fs, frags, st, w, root, p) && Rooted(fs, st, w, p)
    ensures Faithful(fs, root)
  {
    hide Sound, StandsFor, Represents, Resolve, TreeResolve, RefOf, LookupOf, Stands, ListingsBounded;
    forall path: seq<Byte>, follow: bool
      ensures Agrees(fs, root, path, follow)
    {
      var q := ResolveAgrees(fs, frags, st, w, root, p, path, follow);
      var t := TreeResolve(root, path, follow);
      if t.Ok? {
        StandsShows(fs, frags, st, w, t.value, q, Resolve(LookupOf(fs), path, follow).value);
      }
    }
  }

  // ----- ... and only then -----

  lemma {:induction false} NodeAtSnoc(n: Node, names: seq<Name>, name: Name)
    requires NodeAt(n, names).Some? && NodeAt(n, names).value.Dir?
    ensures NodeAt(n, names + [name]) == (var dir := NodeAt(n, names).value; NodeAt(dir, [name]))
    decreases |names|
  {
    hide KidNamed;
    if names == [] {
      assert names + [name] == [name];
    } else {
      assert (names + [name])[1..] == names[1..] + [name];
      NodeAtSnoc(n.kids[KidNamed(n.kids, names[0]).value].node, names[1..], name);
    }
  }

  /** The directory at `names` is reached in the image. */
  ghost predicate Reached(fs: FS, st: Storage, w: Snapshot, root: Node, n: Node, p: Placed, names: seq<Name>)
    requires fs.sb.blockSize > 0
  {
    && n.Dir? && NodeAt(root, names) == Some(n) && Shaped(w, n, p)
    && Resolve(LookupOf(fs), Join(names), true) == Ok(InodeOf(st, w, n, p))
  }

  /** A faithful image reads every directory it reaches in full. */
  lemma ReachedIsListed(fs: FS, frags: bool, st: Storage, w: Snapshot, root: Node, n: Node, p: Placed, names: seq<Name>)
    requires fs.sb.blockSize > 0 && WellFormed(root) && Faithful(fs, root)
    requires Sound(fs, frags, st, w, n, p) && Reached(fs, st, w, root, n, p, names)
    ensures ListingFits(st, w, n.kids, p.kids)
  {
    hide Sound, WellFormed, TreeResolve, Resolve, InodeOf, ReadDir, ListingFits, NodeAt, Lists, SortByName;
    TreeFindsNode(root, names, true);
    assert Agrees(fs, root, Join(names), true);
    DirectoryReads(fs, frags, st, w, n, p);
    var es, whole := ReadDir(fs, InodeOf(st, w, n, p)).value, SortByName(EntriesOf(st, w, n.kids, p.kids));
    ListsAll(fs, es, n.kids);
    SameElements(whole, EntriesOf(st, w, n.kids, p.kids));
    assert es == whole[..|es|] == whole;
  }

  lemma ListsAll(fs: FS, es: seq<DirEntry>, kids: seq<Kid>)
    requires fs.sb.blockSize > 0 && Lists(fs, es, kids)
    ensures |es| == |kids|
  {
  }

  lemma ReachesKid(fs: FS, frags: bool, st: Storage, w: Snapshot, root: Node, n: Node, p: Placed, names: seq<Name>,
                   i: nat)
    requires fs.sb.blockSize > 0 && WellFormed(root) && Sound(fs, frags, st, w, n, p)
    requires Reached(fs, st, w, root, n, p, names) && ListingFits(st, w, n.kids, p.kids)
    requires i < |n.kids| && n.kids[i].node.Dir?
    ensures p.PDir? && |p.kids| == |n.kids| && Sound(fs, frags, st, w, n.kids[i].node, p.kids[i])
    ensures Reached(fs, st, w, root, n.kids[i].node, p.kids[i], names + [n.kids[i].name])
  {
    hide Sound, WellFormed, InodeOf, ListingFits, Components, Child, Join, ReadInode, ReadDir, KidNamed, DistinctNames,
         ValidName;
    var kid, q, name := n.kids[i].node, p.kids[i], n.kids[i].name;
    KidSound(fs, frags, st, w, n, p, i);
    SoundDir(fs, frags, st, w, n, p);
    KidNamedIs(n.kids, i);
    NodeAtSnoc(root, names, name);
    assert [name][1..] == names[..0];
    NamesAreValid(root, names + [name]);
    ComponentsOfJoin(names + [name]);
    forall k | 0 <= k < |names|
      ensures ValidName(names[k])
    {
      assert (names + [name])[k] == names[k];
    }
    ComponentsOfJoin(names);
    ChildFound(fs, frags, st, w, n, p, name);
    NodeDecodes(fs, frags, st, w, kid, q);
    InodeFields(st, w, kid, q);
    DirKind(kid);
    var img := LookupOf(fs);
    WalkAppend(img, img.inode(img.root).value, names, [name], true, 0);
  }

  lemma {:induction false} ReachedIsBounded(fs: FS, frags: bool, st: Storage, w: Snapshot, root: Node, n: Node,
                                            p: Placed, names: seq<Name>)
    requires fs.sb.blockSize > 0 && WellFormed(root) && Faithful(fs, root)
    requires Sound(fs, frags, st, w, n, p) && Reached(fs, st, w, root, n, p, names)
    ensures ListingsBounded(st, w, n, p)
    decreases n
  {
    hide Sound, WellFormed, Faithful, ListingFits, NodeAt, Resolve, InodeOf;
    ReachedIsListed(fs, frags, st, w, root, n, p, names);
    forall i | 0 <= i < |n.kids|
      ensures ListingsBounded(st, w, n.kids[i].node, p.kids[i])
    {
      if n.kids[i].node.Dir? {
        ReachesKid(fs, frags, st, w, root, n, p, names, i);
        ReachedIsBounded(fs, frags, st, w, root, n.kids[i].node, p.kids[i], names + [n.kids[i].name]);
      }
    }
  }

  /** Once nothing is out of range, an image is faithful on every path if and only if every
      directory's listing fits its 16-bit size and has names of at most 256 bytes. */
  lemma FaithfulIffBounded(fs: FS, frags: bool, st: Storage, w: Snapshot, root: Node, p: Placed)
    requires Sound(fs, frags, st, w, root, p) && Rooted(fs, st, w, p)
    ensures Faithful(fs, root) <==> ListingsBounded(st, w, root, p)
  {
    hide Sound, Faithful, ListingFits, InodeOf, Components, ReadInode, ReadDir, RefOf;
    if ListingsBounded(st, w, root, p) {
      ReadyIsFaithful(fs, frags, st, w, root, p);
    } else if Faithful(fs, root) {
      NodeDecodes(fs, frags, st, w, root, p);
      SoundIsWellFormed(fs, frags, st, w, root, p);
      EmptyPath();
      ReachedIsBounded(fs, frags, st, w, root, root, p, []);
      assert false;
    }
  }

  lemma SoundIsWellFormed(fs: FS, frags: bool, st: Storage, w: Snapshot, n: Node, p: Placed)
    requires Sound(fs, frags, st, w, n, p)
    ensures WellFormed(n)
  {
  }
}
