/** The parts of Python's `pathlib.PurePosixPath` that the GUI worker uses: `name`, `suffix`,
    `stem`, `with_suffix` and the `/` operator. A path is its normalised string form (no trailing
    slash, no empty components), as `rglob` produces it. */
module PurePath {
  import opened Strings
  import opened Wrappers
  import PosixPath

  /** `p.name`: the last component. */
  function Name(p: string): string {
    PosixPath.Basename(p)
  }

  /** Index of the dot that starts the suffix of `name`, or -1: the last dot, provided it is
      neither the first nor the last character of the name. */
  function SuffixDot(name: string): (i: int)
    ensures i == -1 || (0 < i < |name| - 1 && name[i] == '.')
  {
    var i := RFind(name, '.');
    if 0 < i < |name| - 1 then i else -1
  }

  /** `p.suffix` */
  function Suffix(p: string): (r: string)
    ensures r == "" || (|r| >= 2 && r[0] == '.' && !HasChar(r[1..], '.'))
    ensures EndsWith(Name(p), r)
  {
    var n := Name(p);
    var i := SuffixDot(n);
    if i < 0 then "" else n[i..]
  }

  /** `p.stem`: the name without its suffix. */
  function Stem(p: string): (r: string)
    ensures r + Suffix(p) == Name(p)
    ensures Name(p) != "" ==> r != ""
  {
    var n := Name(p);
    var i := SuffixDot(n);
    if i < 0 then n
    else
      assert n[..i] + n[i..] == n;
      n[..i]
  }

  /** Everything of `p` up to and including its last '/': the parent, as a string prefix. */
  function ParentPrefix(p: string): string {
    p[..PosixPath.HeadLength(p)]
  }

  /** The suffixes `with_suffix` accepts: no separator, and either empty or a dot followed by more. */
  predicate ValidSuffix(suf: string) {
    !HasChar(suf, '/') && (suf == "" || (suf[0] == '.' && suf != "."))
  }

  /** `p.with_suffix(suf)`: `None` where Python raises `ValueError` (an invalid suffix or an empty
      name); otherwise the same parent with the stem followed by `suf`. */
  function WithSuffix(p: string, suf: string): (r: Option<string>)
    ensures r.Some? <==> ValidSuffix(suf) && Name(p) != ""
  {
    if !ValidSuffix(suf) || Name(p) == "" then None
    else Some(ParentPrefix(p) + Stem(p) + suf)
  }

  /** `Path(dir) / name` for a single-component `name`. */
  function Child(dir: string, name: string): string {
    dir + "/" + name
  }

  lemma PrefixParts(pre: string, n: string)
    requires pre == "" || pre[|pre| - 1] == '/'
    requires !HasChar(n, '/')
    ensures PosixPath.HeadLength(pre + n) == |pre|
    ensures Name(pre + n) == n
    ensures ParentPrefix(pre + n) == pre
  {
    var s := pre + n;
    forall j | |pre| <= j < |s|
      ensures s[j] != '/'
    {
      assert s[j] == n[j - |pre|];
    }
    if pre != "" {
      assert s[|pre| - 1] == '/';
    }
    PosixPath.RFindIs(s, '/', |pre| - 1);
  }

  lemma NoSlashConcat(a: string, b: string)
    requires !HasChar(a, '/') && !HasChar(b, '/')
    ensures !HasChar(a + b, '/')
  {
    var n := a + b;
    forall j | 0 <= j < |n|
      ensures n[j] != '/'
    {
      if j < |a| { assert n[j] == a[j]; } else { assert n[j] == b[j - |a|]; }
    }
  }

  lemma StemNoSlash(p: string)
    ensures !HasChar(Stem(p), '/')
    ensures !HasChar(Name(p), '/')
  {
    var stem := Stem(p);
    forall j | 0 <= j < |stem|
      ensures stem[j] != '/'
    {
      assert stem[j] == Name(p)[j];
    }
  }

  lemma ParentPrefixForm(p: string)
    ensures ParentPrefix(p) == "" || ParentPrefix(p)[|ParentPrefix(p)| - 1] == '/'
  {
    var h := PosixPath.HeadLength(p);
    if h > 0 { assert ParentPrefix(p)[h - 1] == p[h - 1]; }
  }

  /** The suffix of a non-empty stem followed by a one-dot suffix is that suffix. */
  lemma SuffixOfStemPlus(stem: string, suf: string)
    requires stem != ""
    requires PosixPath.DotExt(suf)
    ensures SuffixDot(stem + suf) == |stem|
    ensures (stem + suf)[|stem|..] == suf
    ensures (stem + suf)[..|stem|] == stem
  {
    assert stem + suf == stem + ['.'] + suf[1..];
    PosixPath.RFindLast(stem, '.', suf[1..]);
  }

  /** `with_suffix` with a one-dot suffix keeps the parent and the stem and sets the suffix: the
      result's `suffix` is `suf` and its `stem` is the original stem. */
  lemma {:induction false} WithSuffixParts(p: string, suf: string)
    requires Name(p) != ""
    requires PosixPath.DotExt(suf)
    ensures WithSuffix(p, suf).Some?
    ensures ParentPrefix(WithSuffix(p, suf).value) == ParentPrefix(p)
    ensures Suffix(WithSuffix(p, suf).value) == suf
    ensures Stem(WithSuffix(p, suf).value) == Stem(p)
  {
    var pre := ParentPrefix(p);
    var stem := Stem(p);
    var n := stem + suf;
    var q := pre + stem + suf;
    assert q == pre + n;
    assert ValidSuffix(suf);
    assert WithSuffix(p, suf) == Some(q);
    assert Name(q) == n && ParentPrefix(q) == pre by {
      StemNoSlash(p);
      NoSlashConcat(stem, suf);
      ParentPrefixForm(p);
      PrefixParts(pre, n);
    }
    assert SuffixDot(n) == |stem| && n[|stem|..] == suf && n[..|stem|] == stem by {
      SuffixOfStemPlus(stem, suf);
    }
  }
}
