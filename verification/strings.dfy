/** Character and string helpers with Python's `str` semantics, on `seq<char>`. */
module Strings {

  /** An ASCII decimal digit; Python's `\d` on `str` also accepts other Unicode digits. */
  predicate IsDigit(c: char) {
    '0' <= c <= '9'
  }

  predicate AllDigits(s: string) {
    forall k :: 0 <= k < |s| ==> IsDigit(s[k])
  }

  /** Every character of `s` is `c` (true of the empty string). */
  predicate AllChar(s: string, c: char) {
    forall k :: 0 <= k < |s| ==> s[k] == c
  }

  predicate HasChar(s: string, c: char) {
    exists k :: 0 <= k < |s| && s[k] == c
  }

  lemma HasCharConcat(a: string, b: string, c: char)
    ensures HasChar(a + b, c) <==> HasChar(a, c) || HasChar(b, c)
  {
    var s := a + b;
    if HasChar(s, c) {
      var k :| 0 <= k < |s| && s[k] == c;
      if k >= |a| {
        assert b[k - |a|] == c;
      }
    }
    if HasChar(a, c) {
      var k :| 0 <= k < |a| && a[k] == c;
      assert s[k] == c;
    }
    if HasChar(b, c) {
      var k :| 0 <= k < |b| && b[k] == c;
      assert s[k + |a|] == c;
    }
  }

  /** `s.startswith(p)` */
  predicate StartsWith(s: string, p: string) {
    |p| <= |s| && s[..|p|] == p
  }

  /** `s.endswith(x)` */
  predicate EndsWith(s: string, x: string) {
    |x| <= |s| && s[|s| - |x|..] == x
  }

  /** `needle in hay`: some position of `hay` starts an occurrence of `needle`. */
  predicate Contains(hay: string, needle: string)
    decreases |hay|
  {
    StartsWith(hay, needle) || (|hay| > 0 && Contains(hay[1..], needle))
  }

  lemma {:induction false} ContainsAt(hay: string, needle: string, k: nat)
    requires k + |needle| <= |hay|
    requires hay[k..k + |needle|] == needle
    ensures Contains(hay, needle)
    decreases k
  {
    if k == 0 {
      assert hay[..|needle|] == needle;
    } else {
      assert hay[1..][k - 1..k - 1 + |needle|] == hay[k..k + |needle|];
      ContainsAt(hay[1..], needle, k - 1);
    }
  }

  lemma {:induction false} ContainsWitness(hay: string, needle: string) returns (k: nat)
    requires Contains(hay, needle)
    ensures k + |needle| <= |hay| && hay[k..k + |needle|] == needle
    decreases |hay|
  {
    if StartsWith(hay, needle) {
      k := 0;
    } else {
      var j := ContainsWitness(hay[1..], needle);
      assert hay[1..][j..j + |needle|] == hay[j + 1..j + 1 + |needle|];
      k := j + 1;
    }
  }

  /** `s.rfind(c)`: the last index of `c` in `s`, or -1. */
  function RFind(s: string, c: char): (r: int)
    ensures -1 <= r < |s|
    ensures r >= 0 ==> s[r] == c
    ensures forall j :: r < j < |s| ==> s[j] != c
  {
    if |s| == 0 then -1
    else if s[|s| - 1] == c then |s| - 1
    else RFind(s[..|s| - 1], c)
  }

  /** `s.rstrip(c)` for a single character `c`. */
  function RStrip(s: string, c: char): (r: string)
    ensures |r| <= |s| && r == s[..|r|]
    ensures AllChar(s[|r|..], c)
    ensures |r| == 0 || r[|r| - 1] != c
  {
    if |s| > 0 && s[|s| - 1] == c then RStrip(s[..|s| - 1], c) else s
  }

  /** `s.replace(a, b)` for single characters. */
  function ReplaceChar(s: string, a: char, b: char): (r: string)
    ensures |r| == |s|
    ensures forall k :: 0 <= k < |s| ==> r[k] == (if s[k] == a then b else s[k])
  {
    if |s| == 0 then [] else [if s[0] == a then b else s[0]] + ReplaceChar(s[1..], a, b)
  }

  /** `sep.join(xs)` */
  function Join(xs: seq<string>, sep: string): string
    decreases |xs|
  {
    if |xs| == 0 then ""
    else if |xs| == 1 then xs[0]
    else xs[0] + sep + Join(xs[1..], sep)
  }

  lemma {:induction false} JoinSnoc(xs: seq<string>, x: string, sep: string)
    requires |xs| > 0
    ensures Join(xs + [x], sep) == Join(xs, sep) + sep + x
    decreases |xs|
  {
    if |xs| == 1 {
      assert (xs + [x])[1..] == [x];
    } else {
      assert (xs + [x])[1..] == xs[1..] + [x];
      JoinSnoc(xs[1..], x, sep);
    }
  }

  /** A non-empty first element makes the joined string non-empty. */
  lemma JoinEmpty(xs: seq<string>, sep: string)
    requires forall k :: 0 <= k < |xs| ==> |xs[k]| > 0
    ensures Join(xs, sep) == "" <==> |xs| == 0
  {
    if |xs| > 0 {
      assert |xs[0]| > 0;
      assert Join(xs, sep)[..|xs[0]|] == xs[0];
    }
  }

  /** `s.find(c)`: the first index of `c` in `s`, or -1. */
  function Find(s: string, c: char): (r: int)
    ensures -1 <= r < |s|
    ensures r >= 0 ==> s[r] == c
    ensures forall j :: 0 <= j < |s| && (r < 0 || j < r) ==> s[j] != c
  {
    if |s| == 0 then -1
    else if s[0] == c then 0
    else var r := Find(s[1..], c); if r < 0 then -1 else r + 1
  }

  /** `s.split(c)` for a single-character separator: always at least one piece. */
  function Split(s: string, c: char): (r: seq<string>)
    ensures |r| > 0
    decreases |s|
  {
    var k := Find(s, c);
    if k < 0 then [s] else [s[..k]] + Split(s[k + 1..], c)
  }

  lemma FindAbsent(s: string, c: char)
    requires !HasChar(s, c)
    ensures Find(s, c) == -1
  {
  }

  lemma FindFirst(a: string, c: char, b: string)
    requires !HasChar(a, c)
    ensures Find(a + [c] + b, c) == |a|
  {
    var s := a + [c] + b;
    assert s[|a|] == c;
    forall k | 0 <= k < |a|
      ensures s[k] != c
    {
      assert s[k] == a[k];
    }
  }

  /** Splitting a joined list on its one-character separator gives the list back,
      provided no element contains the separator. */
  lemma {:induction false} SplitJoin(xs: seq<string>, c: char)
    requires |xs| > 0
    requires forall k :: 0 <= k < |xs| ==> !HasChar(xs[k], c)
    ensures Split(Join(xs, [c]), c) == xs
    decreases |xs|
  {
    var j := Join(xs, [c]);
    if |xs| == 1 {
      FindAbsent(xs[0], c);
    } else {
      var tail := Join(xs[1..], [c]);
      assert j == xs[0] + [c] + tail;
      FindFirst(xs[0], c, tail);
      assert j[..|xs[0]|] == xs[0];
      assert j[|xs[0]| + 1..] == tail;
      SplitJoin(xs[1..], c);
      assert [xs[0]] + xs[1..] == xs;
    }
  }

  /** Appending the same suffix to two different strings keeps them different. */
  lemma AppendCancel(x: string, y: string, e: string)
    ensures x + e == y + e ==> x == y
  {
    if x + e == y + e {
      assert x == (x + e)[..|x|];
      assert y == (y + e)[..|y|];
    }
  }

  /** `sub` is `full` with some elements dropped, the rest in the same order. */
  predicate IsSubsequence<T(==)>(sub: seq<T>, full: seq<T>)
    decreases |full|
  {
    if |sub| == 0 then true
    else if |full| == 0 then false
    else if sub[0] == full[0] then IsSubsequence(sub[1..], full[1..])
    else IsSubsequence(sub, full[1..])
  }

  lemma {:induction false} SubsequenceSkipHead<T>(x: T, sub: seq<T>, full: seq<T>)
    requires IsSubsequence(sub, full)
    ensures IsSubsequence(sub, [x] + full)
    decreases |full|
  {
    assert ([x] + full)[1..] == full;
    if |sub| == 0 {
    } else if sub[0] != x {
    } else {
      // sub[0] == x is matched against the new head; the rest of sub must fit in full
      assert |full| > 0;
      if sub[0] == full[0] {
        SubsequenceSkipHead(full[0], sub[1..], full[1..]);
        assert IsSubsequence(sub[1..], full);
      } else {
        SubsequenceDrop(sub, full[1..]);
        assert IsSubsequence(sub[1..], full[1..]);
        SubsequenceSkipHead(full[0], sub[1..], full[1..]);
        assert ([full[0]] + full[1..]) == full;
      }
    }
  }

  lemma {:induction false} SubsequenceDrop<T>(sub: seq<T>, full: seq<T>)
    requires |sub| > 0
    requires IsSubsequence(sub, full)
    ensures IsSubsequence(sub[1..], full)
    decreases |full|
  {
    if sub[0] == full[0] {
      SubsequenceSkipHead(full[0], sub[1..], full[1..]);
      assert [full[0]] + full[1..] == full;
    } else {
      SubsequenceDrop(sub, full[1..]);
      SubsequenceSkipHead(full[0], sub[1..], full[1..]);
      assert [full[0]] + full[1..] == full;
    }
  }

  /** `[f(x) for x in xs]` */
  function MapSeq<A, B>(f: A -> B, xs: seq<A>): (r: seq<B>)
    ensures |r| == |xs|
    decreases |xs|
  {
    if |xs| == 0 then [] else [f(xs[0])] + MapSeq(f, xs[1..])
  }

  lemma {:induction false} MapSeqAt<A, B>(f: A -> B, xs: seq<A>, k: nat)
    requires k < |xs|
    ensures MapSeq(f, xs)[k] == f(xs[k])
    decreases |xs|
  {
    if k > 0 {
      MapSeqAt(f, xs[1..], k - 1);
      assert xs[1..][k - 1] == xs[k];
    }
  }

  /** `[x for x in xs if P(x)]` */
  function Filter<T>(P: T -> bool, xs: seq<T>): (r: seq<T>)
    ensures |r| <= |xs|
    decreases |xs|
  {
    if |xs| == 0 then []
    else if P(xs[0]) then [xs[0]] + Filter(P, xs[1..])
    else Filter(P, xs[1..])
  }

  /** The filter keeps exactly the elements that pass. */
  lemma {:induction false} FilterMembers<T>(P: T -> bool, xs: seq<T>)
    ensures forall x :: x in Filter(P, xs) <==> x in xs && P(x)
    decreases |xs|
  {
    if |xs| > 0 {
      FilterMembers(P, xs[1..]);
      assert xs == [xs[0]] + xs[1..];
    }
  }

  /** The filter keeps the order of the elements it keeps. */
  lemma {:induction false} FilterInOrder<T>(P: T -> bool, xs: seq<T>)
    ensures IsSubsequence(Filter(P, xs), xs)
    decreases |xs|
  {
    if |xs| > 0 {
      FilterInOrder(P, xs[1..]);
      var rest := Filter(P, xs[1..]);
      if P(xs[0]) {
        assert ([xs[0]] + rest)[0] == xs[0];
        assert ([xs[0]] + rest)[1..] == rest;
      } else {
        SubsequenceSkipHead(xs[0], rest, xs[1..]);
        assert [xs[0]] + xs[1..] == xs;
      }
    }
  }

  /** Filtering twice is filtering once. */
  lemma {:induction false} FilterIdempotent<T>(P: T -> bool, xs: seq<T>)
    ensures Filter(P, Filter(P, xs)) == Filter(P, xs)
    decreases |xs|
  {
    if |xs| > 0 {
      FilterIdempotent(P, xs[1..]);
      var rest := Filter(P, xs[1..]);
      if P(xs[0]) {
        var r := [xs[0]] + rest;
        assert r[0] == xs[0] && r[1..] == rest;
      }
    }
  }
}
