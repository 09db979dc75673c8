/** The contract of bftw(): the record handed to the callback, the typeflag
    and action enumerations, the flag bits, and the in-memory file tree the
    walk is modelled over. */
module Bftw {
  import opened Paths
  import opened ShortLex

  datatype Option<T> = None | Some(value: T)

  // -----------------------------------------------------------------------
  // Typeflags

  /** The type of the current file: BFTW_BLK .. BFTW_ERROR. */
  datatype Typeflag = Blk | Chr | Dir | Fifo | Lnk | Reg | Sock | Unknown | Error

  /** The integer value of each typeflag in the C interface. */
  function TypeflagCode(t: Typeflag): (c: int)
    ensures 0 <= c <= 8
  {
    match t
    case Blk => 0
    case Chr => 1
    case Dir => 2
    case Fifo => 3
    case Lnk => 4
    case Reg => 5
    case Sock => 6
    case Unknown => 7
    case Error => 8
  }

  /** Reads a typeflag back from its integer value; only 0..8 are typeflags. */
  function TypeflagOfCode(c: int): (r: Option<Typeflag>)
    ensures r.Some? <==> 0 <= c <= 8
    ensures r.Some? ==> TypeflagCode(r.value) == c
  {
    if c == 0 then Some(Blk)
    else if c == 1 then Some(Chr)
    else if c == 2 then Some(Dir)
    else if c == 3 then Some(Fifo)
    else if c == 4 then Some(Lnk)
    else if c == 5 then Some(Reg)
    else if c == 6 then Some(Sock)
    else if c == 7 then Some(Unknown)
    else if c == 8 then Some(Error)
    else None
  }

  lemma TypeflagCodeRoundTrip(t: Typeflag)
    ensures TypeflagOfCode(TypeflagCode(t)) == Some(t)
  {
  }

  // -----------------------------------------------------------------------
  // Actions

  /** What the callback asks the walk to do next. */
  datatype Action = Continue | SkipSiblings | SkipSubtree | Stop

  function ActionCode(a: Action): (c: int)
    ensures 0 <= c <= 3
  {
    match a
    case Continue => 0
    case SkipSiblings => 1
    case SkipSubtree => 2
    case Stop => 3
  }

  function ActionOfCode(c: int): (r: Option<Action>)
    ensures r.Some? <==> 0 <= c <= 3
    ensures r.Some? ==> ActionCode(r.value) == c
  {
    if c == 0 then Some(Continue)
    else if c == 1 then Some(SkipSiblings)
    else if c == 2 then Some(SkipSubtree)
    else if c == 3 then Some(Stop)
    else None
  }

  lemma ActionCodeRoundTrip(a: Action)
    ensures ActionOfCode(ActionCode(a)) == Some(a)
  {
  }

  // -----------------------------------------------------------------------
  // Flags

  /** stat() each encountered file. */
  const StatFlag: bv32 := 1 << 0
  /** Attempt to recover from encountered errors. */
  const RecoverFlag: bv32 := 1 << 1

  predicate StatsAll(flags: bv32) {
    flags & StatFlag != 0
  }

  predicate Recovers(flags: bv32) {
    flags & RecoverFlag != 0
  }

  /** The two flags are distinct bits: each can be set without the other. */
  lemma FlagsIndependent()
    ensures StatsAll(StatFlag) && !Recovers(StatFlag)
    ensures Recovers(RecoverFlag) && !StatsAll(RecoverFlag)
    ensures StatsAll(StatFlag | RecoverFlag) && Recovers(StatFlag | RecoverFlag)
    ensures !StatsAll(0) && !Recovers(0)
  {
  }

  // -----------------------------------------------------------------------
  // Files

  /** The part of a stat() buffer the model keeps: which file it describes. */
  datatype Stat = Stat(dev: nat, ino: nat)

  /** The type a file on disk can have; Error is not a file type. */
  type FileType = t: Typeflag | !t.Error? witness Reg

  /** A file in the in-memory tree. `failure` marks a file that cannot be
      processed (its errno); `children` are a directory's entries in the
      order the directory yields them. */
  datatype Node = Node(name: Path, kind: FileType, stat: Stat, failure: Option<int>, children: seq<Node>)

  /** The file at position p below t, if there is one. */
  function Lookup(t: Node, p: Pos): Option<Node>
    decreases |p|
  {
    if p == [] then Some(t)
    else
      match Lookup(t, Parent(p))
      case None => None
      case Some(n) => if Index(p) < |n.children| then Some(n.children[Index(p)]) else None
  }

  /** The number of entries of the file at p (0 if there is none). */
  function ChildCount(t: Node, p: Pos): nat {
    match Lookup(t, p)
    case None => 0
    case Some(n) => |n.children|
  }

  /** The file at d is a directory that can be read. */
  predicate Enterable(t: Node, d: Pos) {
    match Lookup(t, d)
    case None => false
    case Some(n) => n.kind == Dir && n.failure.None?
  }

  /** p lies in the tree, and the walk can reach it: each of its ancestors
      is a directory that can be read. */
  ghost predicate Reachable(t: Node, p: Pos)
    decreases |p|
  {
    p == [] || (Reachable(t, Parent(p)) && Enterable(t, Parent(p)) && Index(p) < ChildCount(t, Parent(p)))
  }

  lemma {:induction false} ReachableIsInTree(t: Node, p: Pos)
    requires Reachable(t, p)
    ensures Lookup(t, p).Some?
    decreases |p|
  {
    if p != [] {
      ReachableIsInTree(t, Parent(p));
    }
  }

  // -----------------------------------------------------------------------
  // Paths of entries

  /** The path of entry `name` of the directory at path `parent`: a '/'
      is inserted unless the parent path already ends in one. */
  function JoinPath(parent: Path, name: Path): (r: Path)
    ensures |r| > |name| && r[|r| - |name|..] == name
  {
    if parent != [] && parent[|parent| - 1] == '/' then parent + name else parent + "/" + name
  }

  /** What precedes the name in a joined path is the parent path followed
      by at least one '/': the parent, up to trailing slashes. */
  lemma JoinPathParent(parent: Path, name: Path)
    ensures var r := JoinPath(parent, name);
            StripTrailingSlashes(r[..|r| - |name|]) == StripTrailingSlashes(parent) && r[|r| - |name| - 1] == '/'
  {
    var r := JoinPath(parent, name);
    assert r[..|r| - |name|] == if parent != [] && parent[|parent| - 1] == '/' then parent else parent + "/";
    StripOneMoreSlash(parent);
  }

  lemma StripOneMoreSlash(s: Path)
    ensures StripTrailingSlashes(s + "/") == StripTrailingSlashes(s)
  {
    assert (s + "/")[..|s|] == s;
  }

  /** A child's path splits back into the parent directory and the name:
      its basename is the name and its dirname is the parent path with
      trailing slashes dropped ("/" if nothing is left). */
  lemma ChildPathDecomposes(parent: Path, name: Path)
    requires name != [] && '/' !in name
    ensures Basename(JoinPath(parent, name)) == name
    ensures Dirname(JoinPath(parent, name)) ==
              (var d := StripTrailingSlashes(parent); if d == [] then "/" else d)
  {
    var r := JoinPath(parent, name);
    JoinPathParent(parent, name);
    var h := r[..|r| - |name|];
    var d := StripTrailingSlashes(h);
    var s := h[|d|..];
    assert h == d + s;
    assert s != [] && s[|s| - 1] == '/';
    assert r == d + s + name + [];
    PathDecomposes(d, s, name, []);
  }

  /** The path of the entry at position p, the walk starting at `root`. */
  function PathOf(root: Path, t: Node, p: Pos): Path
    decreases |p|
  {
    if p == [] then root
    else
      match Lookup(t, p)
      case None => []
      case Some(n) => JoinPath(PathOf(root, t, Parent(p)), n.name)
  }

  /** Where the filename starts in the path of the entry at p. */
  function BaseOf(root: Path, t: Node, p: Pos): nat {
    if p == [] then BaseOffset(root)
    else
      match Lookup(t, p)
      case None => 0
      case Some(n) => |PathOf(root, t, p)| - |n.name|
  }

  // -----------------------------------------------------------------------
  // The record given to the callback

  /** struct BFTW: the stat() buffer if one was taken, the typeflag, the
      offset of the filename in the path, the depth, and the errno. */
  datatype Ftw = Ftw(statbuf: Option<Stat>, typeflag: Typeflag, base: nat, level: nat, error: int)

  /** The record for file n: an Error record carrying the errno when n
      cannot be processed, else its type, and its stat() buffer exactly
      when every file is to be stat()ed. */
  function Record(n: Node, base: nat, level: nat, flags: bv32): (r: Ftw)
    ensures r.base == base && r.level == level
    ensures r.typeflag == Error <==> n.failure.Some?
    ensures r.typeflag == Error ==> r.error == n.failure.value && r.statbuf == None
    ensures r.typeflag != Error ==> r.typeflag == n.kind && r.statbuf == (if StatsAll(flags) then Some(n.stat) else None)
  {
    match n.failure
    case Some(e) => Ftw(None, Error, base, level, e)
    case None => Ftw(if StatsAll(flags) then Some(n.stat) else None, n.kind, base, level, 0)
  }

  /** The callback: the path, the record, and the action it returns. The
      opaque pointer argument is not modelled. */
  type Callback = (Path, Ftw) -> Action

  /** One call of the callback during a walk. `pos` is the position in the
      tree of the file it was called for. */
  datatype Visit = Visit(fpath: Path, ftw: Ftw, pos: Pos, action: Action)

  /** What the walk is given: the tree, the starting path, the flags and
      the callback. */
  datatype Env = Env(tree: Node, root: Path, flags: bv32, fn: Callback)

  /** v is a correct call for the file at v.pos: the path, the record and
      the action are those of that file. */
  ghost predicate Describes(env: Env, v: Visit) {
    && Lookup(env.tree, v.pos).Some?
    && v.fpath == PathOf(env.root, env.tree, v.pos)
    && v.ftw == Record(Lookup(env.tree, v.pos).value, BaseOf(env.root, env.tree, v.pos), |v.pos|, env.flags)
    && v.action == env.fn(v.fpath, v.ftw)
  }

  /** The walk descends below v: a directory the callback did not prune. */
  predicate Expands(v: Visit) {
    v.ftw.typeflag == Dir && (v.action == Continue || v.action == SkipSiblings)
  }

  /** The filename of a correctly described entry below the root sits at
      its base offset, and its level is one more than its parent's. */
  lemma EntryBase(env: Env, v: Visit)
    requires Describes(env, v) && v.pos != []
    ensures v.ftw.base <= |v.fpath|
    ensures v.fpath[v.ftw.base..] == Lookup(env.tree, v.pos).value.name
    ensures v.ftw.level == |Parent(v.pos)| + 1
  {
  }

  /** The root's record points at the final component of the start path. */
  lemma RootBase(env: Env, v: Visit)
    requires Describes(env, v) && v.pos == [] && env.root != []
    ensures v.ftw.level == 0
    ensures StripTrailingSlashes(v.fpath[v.ftw.base..]) == Basename(env.root) ||
            (IsSlashes(env.root) && v.fpath[v.ftw.base..] == "/")
  {
    BaseOffsetIsBasename(env.root);
  }
}
