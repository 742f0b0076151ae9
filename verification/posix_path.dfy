/** The parts of Python's `os.path` (the POSIX flavour, `posixpath`) that the scripts use:
    `basename`, `dirname`, `join` of two parts, and `splitext`. Paths are plain strings. */
module PosixPath {
  import opened Strings

  /** Length of the head of `p`: everything up to and including its last '/'. */
  function HeadLength(p: string): (n: nat)
    ensures n <= |p|
    ensures n == 0 || p[n - 1] == '/'
    ensures forall j :: n <= j < |p| ==> p[j] != '/'
  {
    RFind(p, '/') + 1
  }

  /** `os.path.basename(p)`: the part after the last '/'. */
  function Basename(p: string): (r: string)
    ensures !HasChar(r, '/')
    ensures EndsWith(p, r)
  {
    p[HeadLength(p)..]
  }

  /** `os.path.dirname(p)`: the head with its trailing slashes removed, unless it is all slashes. */
  function Dirname(p: string): string
  {
    var head := p[..HeadLength(p)];
    if head != "" && !AllChar(head, '/') then RStrip(head, '/') else head
  }

  /** `os.path.join(a, b)` */
  function Join(a: string, b: string): string
  {
    if |b| > 0 && b[0] == '/' then b
    else if a == "" || a[|a| - 1] == '/' then a + b
    else a + "/" + b
  }

  /** Shape of every `dirname` result: empty, all slashes, or not ending in a slash. */
  predicate IsDirForm(d: string) {
    d == "" || AllChar(d, '/') || d[|d| - 1] != '/'
  }

  lemma DirnameForm(p: string)
    ensures IsDirForm(Dirname(p))
  {
  }

  lemma RStripOne(d: string)
    requires d != "" && d[|d| - 1] != '/'
    ensures RStrip(d + "/", '/') == d
  {
    var s := d + "/";
    var r := RStrip(s, '/');
    assert |r| == |d|;
  }

  /** Joining a directory in `dirname` form with a plain file name: the result's directory is that
      directory and its base name is the file name. */
  lemma {:induction false} JoinParts(d: string, n: string)
    requires IsDirForm(d)
    requires !HasChar(n, '/')
    ensures Dirname(Join(d, n)) == d
    ensures Basename(Join(d, n)) == n
  {
    var j := Join(d, n);
    if d == "" {
      assert j == n;
      assert HeadLength(j) == 0;
    } else if AllChar(d, '/') {
      assert j == d + n;
      assert j[|d| - 1] == '/';
      assert HeadLength(j) == |d|;
      assert j[..|d|] == d;
    } else {
      assert j == d + "/" + n;
      assert j[|d|] == '/';
      assert HeadLength(j) == |d| + 1;
      assert j[..|d| + 1] == d + "/";
      RStripOne(d);
    }
  }

  /** `os.path.splitext(p)` as the pair (root, ext). */
  datatype Parts = Parts(root: string, ext: string)

  /** `os.path.splitext(p)`: the extension starts at the last '.', provided that dot lies in the
      last component and is not preceded there only by dots (so ".bashrc" has no extension). */
  function SplitExt(p: string): (r: Parts)
    ensures r.root + r.ext == p
  {
    var sepIndex := RFind(p, '/');
    var dotIndex := RFind(p, '.');
    if dotIndex > sepIndex && !AllChar(p[sepIndex + 1..dotIndex], '.') then
      Parts(p[..dotIndex], p[dotIndex..])
    else
      Parts(p, "")
  }

  /** `RFind` is characterised by its contract: an occurrence with none after it. */
  lemma RFindIs(s: string, c: char, r: int)
    requires r == -1 || (0 <= r < |s| && s[r] == c)
    requires forall j :: r < j < |s| ==> s[j] != c
    ensures RFind(s, c) == r
  {
    var q := RFind(s, c);
    if r >= 0 {
      assert s[r] == c;
    }
    if q >= 0 {
      assert s[q] == c;
    }
  }

  /** After the `c` that separates `a` from `b`, no `c` follows when `b` has none. */
  lemma NoCharAfter(a: string, c: char, b: string)
    requires !HasChar(b, c)
    ensures var s := a + [c] + b; s[|a|] == c && forall j :: |a| < j < |s| ==> s[j] != c
  {
    var s := a + [c] + b;
    forall j | |a| < j < |s|
      ensures s[j] != c
    {
      assert s[j] == b[j - |a| - 1];
    }
  }

  lemma RFindLast(a: string, c: char, b: string)
    requires !HasChar(b, c)
    ensures RFind(a + [c] + b, c) == |a|
  {
    NoCharAfter(a, c, b);
    RFindIs(a + [c] + b, c, |a|);
  }

  lemma RFindSkip(a: string, c: char, b: string)
    requires !HasChar(b, c)
    ensures RFind(a + b, c) == RFind(a, c)
  {
    var s := a + b;
    var r := RFind(a, c);
    forall j | r < j < |s|
      ensures s[j] != c
    {
      if j < |a| {
        assert s[j] == a[j];
      } else {
        assert s[j] == b[j - |a|];
      }
    }
    if r >= 0 {
      assert s[r] == a[r];
    }
    RFindIs(s, c, r);
  }

  /** Appending "." + `x` (no dot, no slash in `x`) to `root` gives a path whose `splitext` is
      (`root`, "." + `x`) exactly when the last component of `root` has a character other than a dot;
      otherwise the whole path is its own root. */
  lemma {:induction false} SplitExtAppend(root: string, x: string)
    requires !HasChar(x, '.') && !HasChar(x, '/')
    ensures !AllChar(Basename(root), '.') ==> SplitExt(root + "." + x) == Parts(root, "." + x)
    ensures AllChar(Basename(root), '.') ==> SplitExt(root + "." + x) == Parts(root + "." + x, "")
  {
    var p := root + "." + x;
    assert p == root + ['.'] + x;
    RFindLast(root, '.', x);
    DotNoSlash(x);
    assert p == root + ("." + x);
    RFindSkip(root, '/', "." + x);
    SplitExtAt(p, root, "." + x);
  }

  lemma DotNoSlash(x: string)
    requires !HasChar(x, '/')
    ensures !HasChar("." + x, '/')
  {
    forall j | 0 <= j < |"." + x|
      ensures ("." + x)[j] != '/'
    {
      if j > 0 { assert ("." + x)[j] == x[j - 1]; }
    }
  }

  /** `splitext` of `root + ext` when the last dot is the first character of `ext` and the last
      separator lies in `root`. */
  lemma SplitExtAt(p: string, root: string, ext: string)
    requires |ext| > 0 && p == root + ext
    requires RFind(p, '.') == |root| && RFind(p, '/') == RFind(root, '/')
    ensures !AllChar(Basename(root), '.') ==> SplitExt(p) == Parts(root, ext)
    ensures AllChar(Basename(root), '.') ==> SplitExt(p) == Parts(p, "")
  {
    var sepIndex := RFind(root, '/');
    assert p[sepIndex + 1..|root|] == Basename(root);
    assert p[..|root|] == root;
    assert p[|root|..] == ext;
  }

  /** The root `splitext` leaves keeps the last separator of the path, and when an extension was
      split off, the root's last component is more than dots (the split rule itself). */
  lemma SplitExtRoot(p: string)
    ensures RFind(SplitExt(p).root, '/') == RFind(p, '/')
    ensures !HasChar(SplitExt(p).ext, '/')
    ensures SplitExt(p).ext != "" ==> !AllChar(Basename(SplitExt(p).root), '.')
  {
    var sepIndex := RFind(p, '/');
    var dotIndex := RFind(p, '.');
    var r := SplitExt(p);
    if r.ext != "" {
      assert r.root == p[..dotIndex] && r.ext == p[dotIndex..];
      forall j | sepIndex < j < |r.root|
        ensures r.root[j] != '/'
      {
        assert r.root[j] == p[j];
      }
      if sepIndex >= 0 {
        assert r.root[sepIndex] == p[sepIndex];
      }
      RFindIs(r.root, '/', sepIndex);
      forall j | 0 <= j < |r.ext|
        ensures r.ext[j] != '/'
      {
        assert r.ext[j] == p[dotIndex + j];
      }
      assert Basename(r.root) == p[sepIndex + 1..dotIndex];
    }
  }

  /** Two paths with the same head have the same `dirname`. */
  lemma DirnameOfHead(p: string, q: string)
    requires HeadLength(p) == HeadLength(q)
    requires p[..HeadLength(p)] == q[..HeadLength(q)]
    ensures Dirname(p) == Dirname(q)
  {
  }

  /** An extension as this program writes it: a dot, then at least one character, none of them a dot
      or a separator. */
  predicate DotExt(ext: string) {
    |ext| >= 2 && ext[0] == '.' && !HasChar(ext[1..], '.') && !HasChar(ext, '/')
  }

  /** The extensions the program names. */
  lemma KnownExts(ext: string)
    requires ext == ".srt" || ext == ".lrc" || ext == ".mp3" || ext == ".wav"
    ensures DotExt(ext)
  {
    forall j | 0 <= j < 4
      ensures ext[j] != '/' && (j > 0 ==> ext[j] != '.')
    {
    }
    forall j | 0 <= j < 3
      ensures ext[1..][j] != '.'
    {
      assert ext[1..][j] == ext[j + 1];
    }
  }

  /** Kept as a named step: stating it inline makes the callers' proofs unstable. */
  lemma DotSplit(ext: string)
    requires |ext| >= 1 && ext[0] == '.'
    ensures ext == "." + ext[1..]
  {
  }

  /** Kept as a named step: stating it inline makes the callers' proofs unstable. */
  lemma AppendAssoc(a: string, b: string, c: string)
    ensures a + b + c == a + (b + c)
  {
  }

  /** `SplitExtAppend` for an extension written with its dot. */
  lemma SplitExtDotted(root: string, ext: string)
    requires DotExt(ext)
    ensures !AllChar(Basename(root), '.') ==> SplitExt(root + ext) == Parts(root, ext)
    ensures AllChar(Basename(root), '.') ==> SplitExt(root + ext) == Parts(root + ext, "")
  {
    var x := ext[1..];
    assert !HasChar(x, '/') by {
      forall k | 0 <= k < |x|
        ensures x[k] != '/'
      {
        assert x[k] == ext[k + 1];
      }
    }
    SplitExtAppend(root, x);
    DotSplit(ext);
    AppendAssoc(root, ".", x);
  }
}
