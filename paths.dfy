/** Path decomposition: the dirname and basename of a path, following the
    POSIX.1-2017 pages of basename() and dirname(), as the test driver pins
    them for xdirname() and xbasename(). */
module Paths {

  /** A path is a string of characters; '/' is the only separator. */
  type Path = seq<char>

  /** s is made of '/' characters only (vacuously true of the empty path). */
  predicate IsSlashes(s: Path) {
    forall i | 0 <= i < |s| :: s[i] == '/'
  }

  /** s does not end in '/' (the empty path does not). */
  predicate NoTrailingSlash(s: Path) {
    s == [] || s[|s| - 1] != '/'
  }

  /** s with its trailing run of '/' removed. */
  function StripTrailingSlashes(s: Path): (r: Path)
    ensures |r| <= |s| && r == s[..|r|]
    ensures IsSlashes(s[|r|..])
    ensures NoTrailingSlash(r)
  {
    if |s| > 0 && s[|s| - 1] == '/' then StripTrailingSlashes(s[..|s| - 1]) else s
  }

  /** s with its trailing run of non-'/' characters removed. */
  function StripTrailingName(s: Path): (r: Path)
    ensures |r| <= |s| && r == s[..|r|]
    ensures '/' !in s[|r|..]
    ensures r == [] || r[|r| - 1] == '/'
  {
    if |s| > 0 && s[|s| - 1] != '/' then StripTrailingName(s[..|s| - 1]) else s
  }

  /** The final component of p: "." for the empty path, "/" for a path made
      of slashes only, otherwise the last name with trailing slashes ignored. */
  function Basename(p: Path): (r: Path)
    ensures r != []
    ensures r == "/" || '/' !in r
  {
    if p == [] then "."
    else if IsSlashes(p) then "/"
    else
      var t := StripTrailingSlashes(p);
      var h := StripTrailingName(t);
      t[|h|..]
  }

  /** Everything of p before its final component: "." when there is no
      '/' to cut at, "/" when only the root is left, otherwise the prefix
      without the last name and without the '/' run before it. */
  function Dirname(p: Path): (r: Path)
    ensures r != []
    ensures r == "." || r == "/" || (|r| <= |p| && r == p[..|r|] && NoTrailingSlash(r))
  {
    if p == [] then "."
    else if IsSlashes(p) then "/"
    else
      var t := StripTrailingSlashes(p);
      var h := StripTrailingName(t);
      if h == [] then "."
      else
        var d := StripTrailingSlashes(h);
        if d == [] then "/" else d
  }

  /** The offset at which the final component starts in p (the "base" of
      a walk entry whose path is p). */
  function BaseOffset(p: Path): (r: nat)
    ensures r <= |p|
  {
    if p == [] then 0
    else if IsSlashes(p) then |p| - 1
    else |StripTrailingName(StripTrailingSlashes(p))|
  }

  // ---------------------------------------------------------------------
  // The two strip functions are determined by their contracts.

  lemma SlashesFrom(s: Path, n: nat)
    requires n <= |s| && IsSlashes(s[n..])
    ensures forall k | n <= k < |s| :: s[k] == '/'
  {
    forall k | n <= k < |s| ensures s[k] == '/' { assert s[n..][k - n] == s[k]; }
  }

  lemma NamesFrom(s: Path, n: nat)
    requires n <= |s| && '/' !in s[n..]
    ensures forall k | n <= k < |s| :: s[k] != '/'
  {
    forall k | n <= k < |s| ensures s[k] != '/' { assert s[n..][k - n] == s[k]; }
  }

  lemma StripTrailingSlashesUnique(s: Path, r: Path)
    requires |r| <= |s| && r == s[..|r|]
    requires IsSlashes(s[|r|..]) && NoTrailingSlash(r)
    ensures StripTrailingSlashes(s) == r
  {
    var q := StripTrailingSlashes(s);
    SlashesFrom(s, |q|);
    SlashesFrom(s, |r|);
    assert r != [] ==> r[|r| - 1] == s[|r| - 1];
    assert q != [] ==> q[|q| - 1] == s[|q| - 1];
  }

  lemma StripTrailingNameUnique(s: Path, r: Path)
    requires |r| <= |s| && r == s[..|r|]
    requires '/' !in s[|r|..] && (r == [] || r[|r| - 1] == '/')
    ensures StripTrailingName(s) == r
  {
    var q := StripTrailingName(s);
    NamesFrom(s, |q|);
    NamesFrom(s, |r|);
    assert r != [] ==> r[|r| - 1] == s[|r| - 1];
    assert q != [] ==> q[|q| - 1] == s[|q| - 1];
  }

  // ---------------------------------------------------------------------
  // Characterisation: every path is empty, all slashes, "name/*", or
  // "dir/+name/*"; on each shape both results are the expected pieces.

  /** A path made only of slashes (at least one) gives "/" for both. */
  lemma AllSlashesDecompose(p: Path)
    requires p != [] && IsSlashes(p)
    ensures Dirname(p) == "/" && Basename(p) == "/"
  {
  }

  /** A slash-free name, with any trailing slashes, is its own basename
      and has dirname ".". */
  lemma NameDecomposes(b: Path, e: Path)
    requires b != [] && '/' !in b && IsSlashes(e)
    ensures Basename(b + e) == b
    ensures Dirname(b + e) == "."
  {
    var p := b + e;
    assert p[..|b|] == b && p[|b|..] == e;
    assert !IsSlashes(p) by { assert p[0] == b[0]; assert b[0] in b; }
    StripTrailingSlashesUnique(p, b);
    assert b[0..] == b;
    StripTrailingNameUnique(b, []);
  }

  /** d, a non-empty run s of slashes, a name b and trailing slashes e:
      the basename is b, and the dirname is d (or "/" when d is empty),
      so interior repeated slashes in d are kept. */
  lemma PathDecomposes(d: Path, s: Path, b: Path, e: Path)
    requires NoTrailingSlash(d)
    requires s != [] && IsSlashes(s)
    requires b != [] && '/' !in b
    requires IsSlashes(e)
    ensures Basename(d + s + b + e) == b
    ensures Dirname(d + s + b + e) == if d == [] then "/" else d
  {
    var p := d + s + b + e;
    var t := d + s + b;
    var h := d + s;
    assert p[..|t|] == t && p[|t|..] == e;
    assert !IsSlashes(p) by { assert p[|h|] == b[0]; assert b[0] in b; }
    assert NoTrailingSlash(t) by { assert t[|t| - 1] == b[|b| - 1]; assert b[|b| - 1] in b; }
    StripTrailingSlashesUnique(p, t);
    assert t[..|h|] == h && t[|h|..] == b;
    assert h[|h| - 1] == s[|s| - 1];
    StripTrailingNameUnique(t, h);
    assert h[..|d|] == d && h[|d|..] == s;
    StripTrailingSlashesUnique(h, d);
  }

  /** Every path falls into exactly one of the shapes above. */
  lemma {:induction false} Decompose(p: Path) returns (d: Path, s: Path, b: Path, e: Path)
    requires p != [] && !IsSlashes(p)
    ensures b != [] && '/' !in b && IsSlashes(e) && IsSlashes(s)
    ensures p == d + s + b + e
    ensures s == [] ==> d == []
    ensures s != [] ==> NoTrailingSlash(d)
  {
    var t := StripTrailingSlashes(p);
    e := p[|t|..];
    var h := StripTrailingName(t);
    b := t[|h|..];
    d := StripTrailingSlashes(h);
    s := h[|d|..];
    assert h == d + s;
    assert t == h + b;
    assert p == t + e;
  }

  // ---------------------------------------------------------------------
  // Further properties of the two functions.

  /** Trailing slashes never change either result (of a non-empty path). */
  lemma TrailingSlashesIgnored(p: Path, e: Path)
    requires p != [] && IsSlashes(e)
    ensures Basename(p + e) == Basename(p)
    ensures Dirname(p + e) == Dirname(p)
  {
    if IsSlashes(p) {
      assert IsSlashes(p + e);
    } else {
      var d, s, b, e0 := Decompose(p);
      assert IsSlashes(e0 + e);
      assert p + e == d + s + b + (e0 + e);
      if s == [] {
        assert p == b + e0 && p + e == b + (e0 + e);
        NameDecomposes(b, e0);
        NameDecomposes(b, e0 + e);
      } else {
        PathDecomposes(d, s, b, e0);
        PathDecomposes(d, s, b, e0 + e);
      }
    }
  }

  /** Taking the basename twice changes nothing. */
  lemma BasenameIdempotent(p: Path)
    ensures Basename(Basename(p)) == Basename(p)
  {
    var r := Basename(p);
    if r == "/" {
      AllSlashesDecompose(r);
    } else {
      assert r + [] == r;
      NameDecomposes(r, []);
    }
  }

  /** The base offset points at the final component: what follows it is
      the basename, possibly with trailing slashes. */
  lemma BaseOffsetIsBasename(p: Path)
    requires p != []
    ensures StripTrailingSlashes(p[BaseOffset(p)..]) == Basename(p) || (IsSlashes(p) && p[BaseOffset(p)..] == "/")
  {
    if !IsSlashes(p) {
      var t := StripTrailingSlashes(p);
      var h := StripTrailingName(t);
      var b := t[|h|..];
      var rest := p[|h|..];
      assert rest == b + p[|t|..];
      assert rest[..|b|] == b && rest[|b|..] == p[|t|..];
      assert NoTrailingSlash(b);
      StripTrailingSlashesUnique(rest, b);
    }
  }

  // ---------------------------------------------------------------------
  // The vectors of the test driver (POSIX's own examples).

  lemma SlashFreeName()
    ensures Dirname("usr") == "." && Basename("usr") == "usr"
  {
    assert "usr" == "usr" + [];
    NameDecomposes("usr", []);
  }

  lemma SlashFreeNameTrailingSlash()
    ensures Dirname("usr/") == "." && Basename("usr/") == "usr"
  {
    assert "usr/" == "usr" + "/";
    NameDecomposes("usr", "/");
  }

  lemma EmptyPath()
    ensures Dirname("") == "." && Basename("") == "."
  {
  }

  lemma RootPath()
    ensures Dirname("/") == "/" && Basename("/") == "/"
  {
    AllSlashesDecompose("/");
  }

  lemma TripleSlash()
    ensures Dirname("///") == "/" && Basename("///") == "/"
  {
    AllSlashesDecompose("///");
  }

  lemma RootChildTrailingSlash()
    ensures Dirname("/usr/") == "/" && Basename("/usr/") == "usr"
  {
    assert "/usr/" == [] + "/" + "usr" + "/";
    PathDecomposes([], "/", "usr", "/");
  }

  lemma AbsoluteTwoComponents()
    ensures Dirname("/usr/lib") == "/usr" && Basename("/usr/lib") == "lib"
  {
    assert "/usr/lib" == "/usr" + "/" + "lib" + [];
    PathDecomposes("/usr", "/", "lib", []);
  }

  lemma RepeatedSlashes()
    ensures Dirname("//usr//lib//") == "//usr" && Basename("//usr//lib//") == "lib"
  {
    assert "//usr//lib//" == "//usr" + "//" + "lib" + "//";
    PathDecomposes("//usr", "//", "lib", "//");
  }

  lemma InteriorRepeatedSlashes()
    ensures Dirname("/home//dwc//test") == "/home//dwc" && Basename("/home//dwc//test") == "test"
  {
    assert "/home//dwc//test" == "/home//dwc" + "//" + "test" + [];
    PathDecomposes("/home//dwc", "//", "test", []);
  }
}
