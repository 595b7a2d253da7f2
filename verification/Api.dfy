/** The calls a user of the driver makes (fs.go), over a finished image and over its tree. */
module Api {
  import opened Bytes
  import opened Codecs
  import opened Metadata
  import opened Inodes
  import opened Data
  import opened Directory
  import opened Paths
  import opened Tree
  import opened Layout
  import opened Placement
  import opened RoundTrip
  import opened TreePaths

  /** DefaultMaxReadFile, 1 GiB. */
  const DEFAULT_MAX: nat := 0x4000_0000

  // ----- Over an image -----

  /** ReadFileLimit: a negative ceiling means none. */
  function ReadFileAt(fs: FS, path: seq<Byte>, max: int): Result<seq<Byte>>
    requires fs.sb.blockSize > 0
  {
    var in0 :- Resolve(LookupOf(fs), path, true);
    if !in0.IsRegular() then Err(NotRegular) else FileContents(fs, in0, max)
  }

  function ReadWholeFile(fs: FS, path: seq<Byte>): Result<seq<Byte>>
    requires fs.sb.blockSize > 0
  {
    ReadFileAt(fs, path, DEFAULT_MAX)
  }

  function ReadLink(fs: FS, path: seq<Byte>): Result<seq<Byte>>
    requires fs.sb.blockSize > 0
  {
    var in0 :- Resolve(LookupOf(fs), path, false);
    if !in0.IsSymlink() then Err(NotSymlink) else Ok(in0.target)
  }

  function ListDir(fs: FS, path: seq<Byte>): Result<seq<DirEntry>>
    requires fs.sb.blockSize > 0
  {
    var in0 :- Resolve(LookupOf(fs), path, true);
    if !in0.IsDir() then Err(NotDirectory) else ReadDir(fs, in0)
  }

  datatype Info = Info(mode: nat, size: nat, number: nat)

  function Stat(fs: FS, path: seq<Byte>): Result<Info>
    requires fs.sb.blockSize > 0
  {
    var in0 :- Resolve(LookupOf(fs), path, true);
    Ok(Info(in0.mode, in0.size, in0.number))
  }

  // ----- Over the tree -----

  /** The bytes of the file a path names, links followed, if there are at most `max` of them. */
  ghost function TreeFile(root: Node, path: seq<Byte>, max: int): Result<seq<Byte>> {
    var n :- TreeResolve(root, path, true);
    if !n.File? then Err(NotRegular)
    else if max >= 0 && |n.data| > max then Err(TooLarge)
    else Ok(n.data)
  }

  ghost function TreeLink(root: Node, path: seq<Byte>): Result<seq<Byte>> {
    var n :- TreeResolve(root, path, false);
    if !n.Link? then Err(NotSymlink) else Ok(n.target)
  }

  ghost function TreeDir(root: Node, path: seq<Byte>): Result<seq<Kid>> {
    var n :- TreeResolve(root, path, true);
    if !n.Dir? then Err(NotDirectory) else Ok(n.kids)
  }

  // ----- They agree -----

  /** A file whose whole contents can be read is read under a ceiling exactly when it is not
      larger. */
  lemma ReadUnderCeiling(fs: FS, in0: Inode, data: seq<Byte>, max: int)
    requires FileContents(fs, in0, -1) == Ok(data)
    ensures FileContents(fs, in0, max) == if max >= 0 && |data| > max then Err(TooLarge) else Ok(data)
  {
    hide Parts, Tail, StoredExtentOk;
    ContentsHaveTheSize(fs, in0);
    if max >= 0 {
      CeilingRefusesLarger(fs, in0, max);
    }
  }

  /** Where a path leads in a sound image, if anywhere. */
  lemma Leads(fs: FS, frags: bool, st: Storage, w: Snapshot, root: Node, p: Placed, path: seq<Byte>, follow: bool)
    requires Sound(fs, frags, st, w, root, p) && Rooted(fs, st, w, p)
    ensures var t, r := TreeResolve(root, path, follow), Resolve(LookupOf(fs), path, follow);
            && (r.Ok? ==> t.Ok? && StandsFor(fs, r.value, t.value) && (r.value.IsDir() <==> t.value.Dir?) &&
                          (r.value.IsSymlink() <==> t.value.Link?) && (r.value.IsRegular() <==> t.value.File?))
            && (ListingsBounded(st, w, root, p) ==>
                  if t.Err? then r == Err(t.error) else r.Ok? && Represents(fs, r.value, t.value))
  {
    hide Sound, StandsFor, Represents, Resolve, TreeResolve, RefOf, LookupOf, Stands, ListingsBounded;
    var q := ResolveAgrees(fs, frags, st, w, root, p, path, follow);
    var t, r := TreeResolve(root, path, follow), Resolve(LookupOf(fs), path, follow);
    if r.Ok? {
      StandsShows(fs, frags, st, w, t.value, q, r.value);
      KindsExclude(fs, r.value, t.value);
    }
  }

  lemma KindsExclude(fs: FS, in0: Inode, n: Node)
    requires fs.sb.blockSize > 0 && StandsFor(fs, in0, n)
    ensures in0.IsRegular() <==> n.File?
  {
    hide FileContents, ReadDir;
  }

  /** ReadFile and ReadFileLimit: in any sound image what is read is what the tree has, refused
      above the ceiling; with listings that fit, every path gives what the tree gives. */
  lemma FilesAgree(fs: FS, frags: bool, st: Storage, w: Snapshot, root: Node, p: Placed, path: seq<Byte>, max: int)
    requires Sound(fs, frags, st, w, root, p) && Rooted(fs, st, w, p)
    ensures Resolve(LookupOf(fs), path, true).Ok? ==> ReadFileAt(fs, path, max) == TreeFile(root, path, max)
    ensures ListingsBounded(st, w, root, p) ==> ReadFileAt(fs, path, max) == TreeFile(root, path, max)
  {
    hide Sound, Resolve, TreeResolve, RefOf, LookupOf, ListingsBounded, FileContents, ReadDir, Represents;
    Leads(fs, frags, st, w, root, p, path, true);
    var t, r := TreeResolve(root, path, true), Resolve(LookupOf(fs), path, true);
    if r.Ok? && t.value.File? {
      ReadUnderCeiling(fs, r.value, t.value.data, max);
    }
  }

  /** The default ceiling is 1 GiB. */
  lemma DefaultCeiling(fs: FS, frags: bool, st: Storage, w: Snapshot, root: Node, p: Placed, path: seq<Byte>)
    requires Ready(fs, frags, st, w, root, p) && Rooted(fs, st, w, p)
    ensures ReadWholeFile(fs, path) == TreeFile(root, path, 1073741824)
  {
    hide Sound, ReadFileAt, TreeFile, Rooted, ListingsBounded;
    FilesAgree(fs, frags, st, w, root, p, path, DEFAULT_MAX);
  }

  lemma LinksAgree(fs: FS, frags: bool, st: Storage, w: Snapshot, root: Node, p: Placed, path: seq<Byte>)
    requires Sound(fs, frags, st, w, root, p) && Rooted(fs, st, w, p)
    ensures Resolve(LookupOf(fs), path, false).Ok? ==> ReadLink(fs, path) == TreeLink(root, path)
    ensures ListingsBounded(st, w, root, p) ==> ReadLink(fs, path) == TreeLink(root, path)
  {
    hide Sound, Resolve, TreeResolve, RefOf, LookupOf, ListingsBounded, FileContents, ReadDir, Represents;
    Leads(fs, frags, st, w, root, p, path, false);
  }

  /** ListDir: all the children in the order of their names, or the tree's own error. */
  lemma ListingsAgree(fs: FS, frags: bool, st: Storage, w: Snapshot, root: Node, p: Placed, path: seq<Byte>)
    requires Ready(fs, frags, st, w, root, p) && Rooted(fs, st, w, p)
    ensures var t, r := TreeDir(root, path), ListDir(fs, path);
            if t.Err? then r == Err(t.error) else r.Ok? && Lists(fs, r.value, t.value)
  {
    hide Sound, Resolve, TreeResolve, RefOf, LookupOf, ListingsBounded, FileContents, ReadDir, Lists;
    Leads(fs, frags, st, w, root, p, path, true);
  }

  /** Stat: type and permissions of the node, and the size of a file or a link. */
  lemma StatsAgree(fs: FS, frags: bool, st: Storage, w: Snapshot, root: Node, p: Placed, path: seq<Byte>)
    requires Ready(fs, frags, st, w, root, p) && Rooted(fs, st, w, p)
    ensures var t, r := TreeResolve(root, path, true), Stat(fs, path);
            if t.Err? then r == Err(t.error)
            else r.Ok? && IsModeOf(r.value.mode, t.value) && (t.value.File? ==> r.value.size == |t.value.data|)
  {
    hide Sound, Resolve, TreeResolve, RefOf, LookupOf, ListingsBounded, FileContents, ReadDir, Lists;
    Leads(fs, frags, st, w, root, p, path, true);
    var t, r := TreeResolve(root, path, true), Resolve(LookupOf(fs), path, true);
    if t.Ok? && t.value.File? {
      ContentsHaveTheSize(fs, r.value);
    }
  }
}
