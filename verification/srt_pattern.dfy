/** The subtitle-block regular expression of `srt_to_lrc.py` and Python's `re.findall` over it,
    written as an explicit scanner. The pattern, compiled with DOTALL, is
      an index (a run of digits), a newline,
      a start and an end timecode `HH:MM:SS,mmm` joined by " --> ", a newline,
      the text (shortest run of any characters, newlines included),
      and a blank line (two newlines).
    `\d` is taken to be an ASCII digit. */
module SrtPattern {
  import opened Strings
  import opened Wrappers

  /** The four groups of one match: index, start timecode, end timecode, text. */
  datatype Block = Block(index: string, startTime: string, endTime: string, text: string)

  /** One match: its groups and the span `s[from..to]` of the input it covers. */
  datatype Match = Match(block: Block, from: nat, to: nat)

  /** `\d{2}:\d{2}:\d{2},\d{3}` */
  predicate IsTimecode(t: string) {
    && |t| == 12
    && IsDigit(t[0]) && IsDigit(t[1]) && t[2] == ':'
    && IsDigit(t[3]) && IsDigit(t[4]) && t[5] == ':'
    && IsDigit(t[6]) && IsDigit(t[7]) && t[8] == ','
    && IsDigit(t[9]) && IsDigit(t[10]) && IsDigit(t[11])
  }

  const Arrow: string := " --> "

  /** The time line without its newline: two timecodes joined by the arrow, 29 characters. */
  predicate IsTimeRange(r: string) {
    |r| == 29 && IsTimecode(r[..12]) && r[12..17] == Arrow && IsTimecode(r[17..])
  }

  /** A blank line starts at `k`: two consecutive newlines. */
  predicate BlankAt(s: string, k: int) {
    0 <= k && k + 1 < |s| && s[k] == '\n' && s[k + 1] == '\n'
  }

  /** No blank line lies wholly inside `s[a..b]`. */
  predicate NoBlankIn(s: string, a: int, b: int) {
    forall k :: a <= k < b - 1 ==> !BlankAt(s, k)
  }

  /** A text the lazy group captures whole when a blank line follows it: no blank line inside and
      no newline at its end (that newline would begin an earlier blank line). */
  predicate ValidText(t: string) {
    NoBlankIn(t, 0, |t|) && (|t| == 0 || t[|t| - 1] != '\n')
  }

  /** The groups of a block that the pattern can match. */
  predicate ValidBlock(b: Block) {
    && |b.index| > 0 && AllDigits(b.index)
    && IsTimecode(b.startTime) && IsTimecode(b.endTime)
    && ValidText(b.text)
  }

  /** The time line of a block, without its newline. */
  function TimeRange(b: Block): string {
    b.startTime + Arrow + b.endTime
  }

  /** The characters a block occupies in a subtitle file, its closing blank line included. */
  function Render(b: Block): string {
    (b.index + "\n" + TimeRange(b) + "\n") + b.text + "\n\n"
  }

  /** A whole subtitle file made of the given blocks. */
  function RenderAll(bs: seq<Block>): string
    decreases |bs|
  {
    if |bs| == 0 then "" else Render(bs[0]) + RenderAll(bs[1..])
  }

  /** Length of the maximal run of digits starting at `i` (what greedy `\d+` takes). */
  function DigitRun(s: string, i: nat): (n: nat)
    requires i <= |s|
    ensures i + n <= |s|
    ensures AllDigits(s[i..i + n])
    ensures i + n == |s| || !IsDigit(s[i + n])
    decreases |s| - i
  {
    if i < |s| && IsDigit(s[i]) then
      var m := DigitRun(s, i + 1);
      DigitsCons(s, i, m);
      1 + m
    else 0
  }

  lemma DigitsCons(s: string, i: nat, m: nat)
    requires i + 1 + m <= |s| && IsDigit(s[i]) && AllDigits(s[i + 1..i + 1 + m])
    ensures AllDigits(s[i..i + 1 + m])
  {
    var t := s[i..i + 1 + m];
    var u := s[i + 1..i + 1 + m];
    forall j | 0 <= j < m + 1
      ensures IsDigit(t[j])
    {
      if j > 0 {
        assert t[j] == u[j - 1];
      }
    }
  }

  /** The first blank line at or after `j`: where the lazy `(.*?)\n\n` stops. */
  function FindBlank(s: string, j: nat): (r: Option<nat>)
    requires j <= |s|
    ensures r.Some? ==> j <= r.value && BlankAt(s, r.value) && NoBlankIn(s, j, r.value + 1)
    ensures r.None? ==> NoBlankIn(s, j, |s|)
    decreases |s| - j
  {
    if j + 1 >= |s| then None
    else if BlankAt(s, j) then Some(j)
    else FindBlank(s, j + 1)
  }

  /** The pattern tried at position `i` alone (`re.match` from `i`): `None` when it fails there.
      What a match covers is stated by `MatchAtSound` and `MatchRendered`. */
  function MatchAt(s: string, i: nat): (r: Option<Match>)
    requires i <= |s|
    ensures r.Some? ==> r.value.from == i && i < r.value.to <= |s|
  {
    var n := DigitRun(s, i);
    var t := i + n + 1;
    if n == 0 || t + 30 > |s| then None
    else if s[i + n] != '\n' || !IsTimeRange(s[t..t + 29]) || s[t + 29] != '\n' then None
    else
      match FindBlank(s, t + 30)
      case None => None
      case Some(k) => Some(Match(Block(s[i..i + n], s[t..t + 12], s[t + 17..t + 29], s[t + 30..k]), i, k + 2))
  }

  lemma SliceOfSlice(s: string, i: nat, j: nat, a: nat, c: nat)
    requires i <= j <= |s| && a <= c <= j - i
    ensures s[i..j][a..c] == s[i + a..i + c]
  {
    var u := s[i..j][a..c];
    var v := s[i + a..i + c];
    forall m | 0 <= m < c - a
      ensures u[m] == v[m]
    {
    }
  }

  /** Kept as a named step: stating it inline makes the matcher proofs costlier. */
  lemma SliceSplit(s: string, a: nat, b: nat, c: nat)
    requires a <= b <= c <= |s|
    ensures s[a..c] == s[a..b] + s[b..c]
  {
  }

  /** A text cut out of `s` just before a newline is valid exactly when no blank line starts
      between its first character and that newline. */
  lemma TextInContext(s: string, a: nat, k: nat)
    requires a <= k < |s| && s[k] == '\n'
    ensures ValidText(s[a..k]) <==> NoBlankIn(s, a, k + 1)
  {
    var t := s[a..k];
    forall m | a <= m < k - 1
      ensures BlankAt(s, m) <==> BlankAt(t, m - a)
    {
      assert t[m - a] == s[m] && t[m - a + 1] == s[m + 1];
    }
    if k > a {
      assert t[|t| - 1] == s[k - 1];
      assert BlankAt(s, k - 1) <==> s[k - 1] == '\n';
    }
    if NoBlankIn(s, a, k + 1) {
      forall m | 0 <= m < |t| - 1
        ensures !BlankAt(t, m)
      {
        assert BlankAt(s, m + a) <==> BlankAt(t, m);
      }
    }
    if ValidText(t) {
      forall m | a <= m < k
        ensures !BlankAt(s, m)
      {
        if m < k - 1 {
          assert !BlankAt(t, m - a);
        }
      }
    }
  }

  /** The time line cut out by `MatchAt`: both timecodes around the arrow. */
  lemma RangeParts(s: string, t: nat)
    requires t + 29 <= |s|
    requires IsTimeRange(s[t..t + 29])
    ensures IsTimecode(s[t..t + 12]) && IsTimecode(s[t + 17..t + 29])
    ensures s[t..t + 29] == TimeRange(Block("", s[t..t + 12], s[t + 17..t + 29], ""))
  {
    var range := s[t..t + 29];
    SliceOfSlice(s, t, t + 29, 0, 12);
    SliceOfSlice(s, t, t + 29, 12, 17);
    SliceOfSlice(s, t, t + 29, 17, 29);
    assert range == range[..12] + range[12..17] + range[17..];
  }

  /** The groups cut out by `MatchAt` reassemble into the matched span. The time line starts at
      `t`, just after the index and its newline. */
  lemma RenderedAt(s: string, i: nat, n: nat, t: nat, k: nat, b: Block)
    requires t == i + n + 1 && t + 30 <= k && k + 2 <= |s|
    requires n > 0 && AllDigits(s[i..i + n]) && s[i + n] == '\n'
    requires IsTimeRange(s[t..t + 29]) && s[t + 29] == '\n'
    requires BlankAt(s, k) && NoBlankIn(s, t + 30, k + 1)
    requires b == Block(s[i..i + n], s[t..t + 12], s[t + 17..t + 29], s[t + 30..k])
    ensures ValidBlock(b)
    ensures k + 2 == i + |Render(b)|
    ensures s[i..k + 2] == Render(b)
  {
    PartsValid(s, i, n, t, k, b);
    RangeParts(s, t);
    SpanAt(s, i, t, k, b.index, TimeRange(b), b.text);
  }

  /** The groups cut out by `MatchAt` form a valid block. */
  lemma PartsValid(s: string, i: nat, n: nat, t: nat, k: nat, b: Block)
    requires t == i + n + 1 && t + 30 <= k && k + 2 <= |s|
    requires n > 0 && AllDigits(s[i..i + n])
    requires IsTimeRange(s[t..t + 29])
    requires BlankAt(s, k) && NoBlankIn(s, t + 30, k + 1)
    requires b == Block(s[i..i + n], s[t..t + 12], s[t + 17..t + 29], s[t + 30..k])
    ensures ValidBlock(b)
  {
    RangeParts(s, t);
    TextInContext(s, t + 30, k);
  }

  lemma SpanAt(s: string, i: nat, t: nat, k: nat, index: string, range: string, text: string)
    requires i < t && t + 30 <= k && k + 2 <= |s|
    requires s[i..t - 1] == index && s[t - 1] == '\n'
    requires s[t..t + 29] == range && s[t + 29] == '\n'
    requires s[t + 30..k] == text && s[k] == '\n' && s[k + 1] == '\n'
    ensures s[i..k + 2] == (index + "\n" + range + "\n") + text + "\n\n"
  {
    assert s[i..t + 30] == index + "\n" + range + "\n" by {
      SliceSplit(s, i, t - 1, t + 30);
      SliceSplit(s, t - 1, t, t + 30);
      SliceSplit(s, t, t + 29, t + 30);
    }
    assert s[i..k + 2] == s[i..t + 30] + text + "\n\n" by {
      SliceSplit(s, i, t + 30, k + 2);
      SliceSplit(s, t + 30, k, k + 2);
    }
  }

  /** Every match covers exactly the rendering of a valid block: its index is a run of digits, its
      timecodes are well formed, its text holds no blank line, and the span ends with one. */
  lemma MatchAtSound(s: string, i: nat)
    requires i <= |s|
    ensures MatchAt(s, i).Some? ==>
      var m := MatchAt(s, i).value;
      && ValidBlock(m.block)
      && m.to == i + |Render(m.block)|
      && s[i..m.to] == Render(m.block)
  {
    if MatchAt(s, i).Some? {
      var n := DigitRun(s, i);
      var t := i + n + 1;
      var k := FindBlank(s, t + 30).value;
      RenderedAt(s, i, n, t, k, MatchAt(s, i).value.block);
    }
  }

  /** `DigitRun` is characterised by its contract: digits up to a non-digit or the end. */
  lemma {:induction false} DigitRunIs(s: string, i: nat, n: nat)
    requires i + n <= |s|
    requires AllDigits(s[i..i + n])
    requires i + n == |s| || !IsDigit(s[i + n])
    ensures DigitRun(s, i) == n
    decreases n
  {
    if n > 0 {
      assert s[i..i + n][0] == s[i];
      assert s[i + 1..i + n] == s[i..i + n][1..];
      DigitRunIs(s, i + 1, n - 1);
    }
  }

  /** `FindBlank` is characterised by its contract: the first blank line at or after `j`. */
  lemma {:induction false} FindBlankIs(s: string, j: nat, k: nat)
    requires j <= k
    requires BlankAt(s, k) && NoBlankIn(s, j, k + 1)
    ensures FindBlank(s, j) == Some(k)
    decreases k - j
  {
    if j < k {
      assert !BlankAt(s, j);
      FindBlankIs(s, j + 1, k);
    }
  }

  /** Where the parts of a block sit inside its rendering. */
  lemma RenderLayout(b: Block)
    requires IsTimecode(b.startTime) && IsTimecode(b.endTime)
    ensures var n := |b.index|; var r := Render(b);
      && |r| == n + 33 + |b.text|
      && r[..n] == b.index && r[n] == '\n'
      && r[n + 1..n + 30] == TimeRange(b) && r[n + 30] == '\n'
      && r[n + 31..n + 31 + |b.text|] == b.text
      && r[n + 31 + |b.text|] == '\n' && r[n + 32 + |b.text|] == '\n'
  {
    var n := |b.index|;
    var head := b.index + "\n" + TimeRange(b) + "\n";
    assert |head| == n + 31;
    assert Render(b)[..n + 31] == head;
    assert head[..n] == b.index;
    assert head[n + 1..n + 30] == TimeRange(b);
    assert Render(b)[n + 31..n + 31 + |b.text|] == b.text;
  }

  /** Where the two timecodes sit inside a time line. */
  lemma TimeRangeLayout(b: Block)
    requires IsTimecode(b.startTime) && IsTimecode(b.endTime)
    ensures IsTimeRange(TimeRange(b))
    ensures TimeRange(b)[..12] == b.startTime && TimeRange(b)[17..] == b.endTime
  {
    var r := TimeRange(b);
    assert r[..12] == b.startTime;
    assert r[12..17] == Arrow;
    assert r[17..] == b.endTime;
  }

  /** A rendered block read back part by part. */
  lemma RenderedParts(s: string, i: nat, b: Block)
    requires IsTimecode(b.startTime) && IsTimecode(b.endTime)
    requires i + |Render(b)| <= |s| && s[i..i + |Render(b)|] == Render(b)
    ensures var n := |b.index|; var t := i + n + 1; var k := i + |Render(b)| - 2;
      && k == t + 30 + |b.text|
      && s[i..i + n] == b.index && s[i + n] == '\n'
      && s[t..t + 29] == TimeRange(b) && s[t + 29] == '\n'
      && s[t + 30..k] == b.text && s[k] == '\n' && s[k + 1] == '\n'
  {
    RenderLayout(b);
    RenderedHead(s, i, b);
    RenderedTail(s, i, b);
  }

  /** The index, the time line and their newlines, read back from a rendered block. */
  lemma RenderedHead(s: string, i: nat, b: Block)
    requires IsTimecode(b.startTime) && IsTimecode(b.endTime)
    requires i + |Render(b)| <= |s| && s[i..i + |Render(b)|] == Render(b)
    ensures var n := |b.index|;
      && s[i..i + n] == b.index && s[i + n] == '\n'
      && s[i + n + 1..i + n + 30] == TimeRange(b) && s[i + n + 30] == '\n'
  {
    var n := |b.index|;
    var r := Render(b);
    var e := i + |r|;
    RenderLayout(b);
    SliceOfSlice(s, i, e, 0, n);
    SliceOfSlice(s, i, e, n + 1, n + 30);
    assert s[i + n] == r[n];
    assert s[i + n + 30] == r[n + 30];
  }

  /** The text and the closing blank line, read back from a rendered block. */
  lemma RenderedTail(s: string, i: nat, b: Block)
    requires IsTimecode(b.startTime) && IsTimecode(b.endTime)
    requires i + |Render(b)| <= |s| && s[i..i + |Render(b)|] == Render(b)
    ensures var n := |b.index|; var k := i + |Render(b)| - 2;
      && k == i + n + 31 + |b.text|
      && s[i + n + 31..k] == b.text && s[k] == '\n' && s[k + 1] == '\n'
  {
    var n := |b.index|;
    var r := Render(b);
    var e := i + |r|;
    RenderLayout(b);
    SliceOfSlice(s, i, e, n + 31, n + 31 + |b.text|);
    assert s[e - 2] == r[n + 31 + |b.text|] && s[e - 1] == r[n + 32 + |b.text|];
  }

  /** Unfolding `MatchAt` once its scanning helpers are known; `t` is where the time line starts. */
  lemma MatchAtIs(s: string, i: nat, n: nat, t: nat, k: nat)
    requires t == i + n + 1 && t + 30 <= k && k + 2 <= |s|
    requires DigitRun(s, i) == n && n > 0 && s[i + n] == '\n'
    requires IsTimeRange(s[t..t + 29]) && s[t + 29] == '\n'
    requires FindBlank(s, t + 30) == Some(k)
    ensures MatchAt(s, i) == Some(Match(Block(s[i..i + n], s[t..t + 12], s[t + 17..t + 29], s[t + 30..k]), i, k + 2))
  {
    assert !(n == 0 || t + 30 > |s|);
    assert !(s[i + n] != '\n' || !IsTimeRange(s[t..t + 29]) || s[t + 29] != '\n');
  }

  /** The pattern at `i` over a block laid out part by part. */
  lemma MatchFromParts(s: string, i: nat, b: Block, k: nat)
    requires ValidBlock(b)
    requires var n := |b.index|; var t := i + n + 1;
      && k == t + 30 + |b.text| && k + 2 <= |s|
      && s[i..i + n] == b.index && s[i + n] == '\n'
      && s[t..t + 29] == TimeRange(b) && s[t + 29] == '\n'
      && s[t + 30..k] == b.text && s[k] == '\n' && s[k + 1] == '\n'
    ensures MatchAt(s, i) == Some(Match(b, i, k + 2))
  {
    var n := |b.index|;
    var t := i + n + 1;
    IndexRun(s, i, b.index);
    RangeAt(s, t, b);
    TextRun(s, t + 30, k, b.text);
    MatchAtIs(s, i, n, t, k);
  }

  /** A run of digits followed by a newline is exactly what `DigitRun` measures. */
  lemma IndexRun(s: string, i: nat, index: string)
    requires AllDigits(index) && i + |index| < |s|
    requires s[i..i + |index|] == index && s[i + |index|] == '\n'
    ensures DigitRun(s, i) == |index|
  {
    DigitRunIs(s, i, |index|);
  }

  /** A time line laid out at `t` passes the time-line test, and the timecodes sit where
      `MatchAt` cuts them out. */
  lemma RangeAt(s: string, t: nat, b: Block)
    requires IsTimecode(b.startTime) && IsTimecode(b.endTime)
    requires t + 29 <= |s| && s[t..t + 29] == TimeRange(b)
    ensures IsTimeRange(s[t..t + 29]) && s[t..t + 12] == b.startTime && s[t + 17..t + 29] == b.endTime
  {
    TimeRangeLayout(b);
    SliceOfSlice(s, t, t + 29, 0, 12);
    SliceOfSlice(s, t, t + 29, 17, 29);
  }

  /** A text without blank lines, followed by a blank line, ends where `FindBlank` stops. */
  lemma TextRun(s: string, j: nat, k: nat, text: string)
    requires ValidText(text)
    requires j <= k && k + 2 <= |s| && s[j..k] == text && s[k] == '\n' && s[k + 1] == '\n'
    ensures FindBlank(s, j) == Some(k)
  {
    TextInContext(s, j, k);
    FindBlankIs(s, j, k);
  }

  /** The pattern matches wherever a valid block is written out, and its groups are exactly that
      block's parts. With `MatchAtSound`: a match at `i` exists if and only if the input continues
      at `i` with the rendering of a valid block, and that block is the match's groups. */
  lemma {:induction false} MatchRendered(s: string, i: nat, b: Block)
    requires ValidBlock(b)
    requires i + |Render(b)| <= |s| && s[i..i + |Render(b)|] == Render(b)
    ensures MatchAt(s, i) == Some(Match(b, i, i + |Render(b)|))
  {
    RenderedParts(s, i, b);
    MatchFromParts(s, i, b, i + |Render(b)| - 2);
  }

  /** Python's `re.findall` from position `i`: try the pattern at `i`; after a match resume at its
      end, after a failure resume one character later. */
  function FindAll(s: string, i: nat): seq<Match>
    requires i <= |s|
    decreases |s| - i
  {
    if i == |s| then []
    else match MatchAt(s, i)
      case Some(m) => [m] + FindAll(s, m.to)
      case None => FindAll(s, i + 1)
  }

  /** Matches that lie within `[i, n)`, each non-empty, in order and without overlap. */
  predicate InOrder(ms: seq<Match>, i: nat, n: nat) {
    && (forall k :: 0 <= k < |ms| ==> i <= ms[k].from < ms[k].to <= n)
    && (forall k :: 0 <= k < |ms| - 1 ==> ms[k].to <= ms[k + 1].from)
  }

  lemma InOrderCons(m: Match, ms: seq<Match>, i: nat, n: nat)
    requires i <= m.from < m.to <= n && InOrder(ms, m.to, n)
    ensures InOrder([m] + ms, i, n)
  {
    var r := [m] + ms;
    forall k | 0 <= k < |r|
      ensures i <= r[k].from < r[k].to <= n
    {
      if k > 0 { assert r[k] == ms[k - 1]; }
    }
    forall k | 0 <= k < |r| - 1
      ensures r[k].to <= r[k + 1].from
    {
      assert r[k + 1] == ms[k];
      if k > 0 { assert r[k] == ms[k - 1]; }
    }
  }

  /** What `re.findall` reports from `i` lies in `[i, |s|)`, in order and without overlap. */
  lemma {:induction false} FindAllOrdered(s: string, i: nat, ms: seq<Match>)
    requires i <= |s| && ms == FindAll(s, i)
    ensures InOrder(ms, i, |s|)
    decreases |s| - i
  {
    if i < |s| {
      if MatchAt(s, i).Some? {
        var m := MatchAt(s, i).value;
        var rest := FindAll(s, m.to);
        FindAllOrdered(s, m.to, rest);
        FindAllStep(s, i);
        InOrderCons(m, rest, i, |s|);
      } else {
        FindAllSkip(s, i);
        FindAllOrdered(s, i + 1, ms);
      }
    }
  }

  /** Every match `re.findall` reports is the pattern's match at the position it starts from. */
  lemma {:induction false} FindAllMatches(s: string, i: nat)
    requires i <= |s|
    ensures forall m :: m in FindAll(s, i) ==> m.from <= |s| && MatchAt(s, m.from) == Some(m)
    decreases |s| - i
  {
    if i < |s| {
      if MatchAt(s, i).Some? {
        var m := MatchAt(s, i).value;
        FindAllMatches(s, m.to);
        FindAllStep(s, i);
      } else {
        FindAllSkip(s, i);
        FindAllMatches(s, i + 1);
      }
    }
  }

  /** Nothing is missed: a position that no reported match covers is one where the pattern fails.
      So a malformed block costs only the positions it occupies, and the scan goes on to find the
      blocks after it. */
  lemma {:induction false} FindAllComplete(s: string, i: nat, p: nat)
    requires i <= p < |s|
    requires forall m :: m in FindAll(s, i) ==> !(m.from <= p < m.to)
    ensures MatchAt(s, p).None?
    decreases p - i
  {
    if MatchAt(s, i).Some? {
      var m := MatchAt(s, i).value;
      FindAllStep(s, i);
      assert m in FindAll(s, i);
      forall m' | m' in FindAll(s, m.to)
        ensures !(m'.from <= p < m'.to)
      {
        assert m' in FindAll(s, i);
      }
      FindAllComplete(s, m.to, p);
    } else if i < p {
      FindAllSkip(s, i);
      FindAllComplete(s, i + 1, p);
    }
  }

  /** The groups of each match, in order: what `re.findall` returns. */
  function Blocks(ms: seq<Match>): (bs: seq<Block>)
    ensures |bs| == |ms|
    decreases |ms|
  {
    if |ms| == 0 then [] else [ms[0].block] + Blocks(ms[1..])
  }

  /** What `re.findall` returns when scanning from `i`: the groups of each match, in order. */
  function Groups(s: string, i: nat): seq<Block>
    requires i <= |s|
  {
    Blocks(FindAll(s, i))
  }

  lemma {:induction false} BlocksAt(ms: seq<Match>, k: nat)
    requires k < |ms|
    ensures Blocks(ms)[k] == ms[k].block
    decreases k
  {
    if k > 0 {
      BlocksAt(ms[1..], k - 1);
    }
  }

  /** Every match ends with a blank line that starts after the match's own start. */
  lemma MatchEndsBlank(s: string, i: nat)
    requires i <= |s|
    ensures MatchAt(s, i).Some? ==> i + 31 <= MatchAt(s, i).value.to - 2 && BlankAt(s, MatchAt(s, i).value.to - 2)
  {
  }

  /** The blank line that ends a match lies at least 31 characters past the end of its index. */
  lemma MatchBlankAfterIndex(s: string, i: nat)
    requires i <= |s|
    ensures MatchAt(s, i).Some? ==> i + DigitRun(s, i) + 31 <= MatchAt(s, i).value.to - 2
  {
  }

  /** With no blank line from `c` on, nothing is found from 31 characters before `c`: a match
      needs a blank line at least 31 characters past its start. */
  lemma {:induction false} NoLateBlank(s: string, i: nat, c: nat)
    requires i <= |s| && c <= i + 31
    requires NoBlankIn(s, c, |s|)
    ensures FindAll(s, i) == []
    decreases |s| - i
  {
    if i < |s| {
      MatchEndsBlank(s, i);
      assert MatchAt(s, i).None?;
      NoLateBlank(s, i + 1, c);
    }
  }

  /** Without a blank line from `i` on, nothing is found from `i` on. */
  lemma {:induction false} NoBlankNoMatch(s: string, i: nat)
    requires i <= |s| && NoBlankIn(s, i, |s|)
    ensures FindAll(s, i) == []
    decreases |s| - i
  {
    if i < |s| {
      MatchEndsBlank(s, i);
      assert MatchAt(s, i).None?;
      NoBlankNoMatch(s, i + 1);
    }
  }

  /** A valid block written out at `i` is the first thing found from `i`. */
  lemma ParseStep(s: string, i: nat, b: Block)
    requires ValidBlock(b)
    requires i + |Render(b)| <= |s| && s[i..i + |Render(b)|] == Render(b)
    ensures Groups(s, i) == [b] + Groups(s, i + |Render(b)|)
  {
    var m := Match(b, i, i + |Render(b)|);
    assert MatchAt(s, i) == Some(m) by {
      MatchRendered(s, i, b);
    }
    FindAllNext(s, i, m);
    BlocksCons(m, FindAll(s, m.to));
  }

  /** Kept as a named step: stating it inline makes the matcher proofs costlier. */
  lemma Front(a: string, b: string, c: string)
    ensures (a + b + c)[..|a|] == a
    ensures |a| > 0 ==> (a + b + c)[|a| - 1] == a[|a| - 1]
  {
  }

  lemma BlocksCons(m: Match, ms: seq<Match>)
    ensures Blocks([m] + ms) == [m.block] + Blocks(ms)
  {
    assert ([m] + ms)[1..] == ms;
  }

  /** Kept as a named step: stating it inline makes the matcher proofs costlier. */
  lemma Middle(a: string, b: string, c: string)
    ensures (a + b + c)[|a|..|a| + |b|] == b
  {
  }

  lemma FindAllNext(s: string, i: nat, m: Match)
    requires i < |s| && MatchAt(s, i) == Some(m)
    ensures FindAll(s, i) == [m] + FindAll(s, m.to)
  {
  }

  lemma FindAllStep(s: string, i: nat)
    requires i < |s| && MatchAt(s, i).Some?
    ensures FindAll(s, i) == [MatchAt(s, i).value] + FindAll(s, MatchAt(s, i).value.to)
  {
  }

  lemma FindAllSkip(s: string, i: nat)
    requires i < |s| && MatchAt(s, i).None?
    ensures FindAll(s, i) == FindAll(s, i + 1)
  {
  }

  /** Positions where the pattern fails are skipped one by one. */
  lemma {:induction false} SkipNoMatch(s: string, i: nat, j: nat)
    requires i <= j <= |s|
    requires forall p :: i <= p < j ==> MatchAt(s, p).None?
    ensures FindAll(s, i) == FindAll(s, j)
    decreases j - i
  {
    if i < j {
      assert MatchAt(s, i).None?;
      SkipNoMatch(s, i + 1, j);
    }
  }

  /** Every block found is valid and sits, rendered, at the span of its match (that the spans are
      in order and do not overlap is `FindAllOrdered`). */
  lemma FindAllSound(s: string)
    ensures forall m :: m in FindAll(s, 0) ==>
      && ValidBlock(m.block) && m.from <= m.to <= |s|
      && s[m.from..m.to] == Render(m.block)
  {
    FindAllMatches(s, 0);
    forall m | m in FindAll(s, 0)
      ensures ValidBlock(m.block) && m.from <= m.to <= |s|
      ensures s[m.from..m.to] == Render(m.block)
    {
      MatchAtSound(s, m.from);
    }
  }

  /** A file written as a run of valid blocks, followed by a tail with no blank line, is read back
      as exactly those blocks, in order. */
  lemma ParseRendered(pre: string, bs: seq<Block>, tail: string)
    requires forall k :: 0 <= k < |bs| ==> ValidBlock(bs[k])
    requires NoBlankIn(tail, 0, |tail|)
    ensures Groups(pre + RenderAll(bs) + tail, |pre|) == bs
  {
    var s := pre + RenderAll(bs) + tail;
    assert LaidOut(s, |pre|, bs, tail) by {
      LaidOutAll(pre, bs, tail);
    }
    assert s[|s| - |tail|..] == tail;
    TailQuiet(s, tail);
    ParseLaidOut(s, |pre|, bs, tail);
  }

  /** `s` continues at `i` with the renderings of `bs`, one after the other, and then `tail`. */
  predicate LaidOut(s: string, i: nat, bs: seq<Block>, tail: string)
    decreases |bs|
  {
    if |bs| == 0 then i <= |s| && s[i..] == tail
    else
      && i + |Render(bs[0])| <= |s|
      && s[i..i + |Render(bs[0])|] == Render(bs[0])
      && LaidOut(s, i + |Render(bs[0])|, bs[1..], tail)
  }

  lemma LaidOutFromStart(bs: seq<Block>, tail: string)
    ensures LaidOut(RenderAll(bs) + tail, 0, bs, tail)
  {
    var x := RenderAll(bs);
    assert "" + x + tail == x + tail;
    LaidOutAll("", bs, tail);
  }

  lemma {:induction false} LaidOutAll(pre: string, bs: seq<Block>, tail: string)
    ensures LaidOut(pre + RenderAll(bs) + tail, |pre|, bs, tail)
    decreases |bs|
  {
    var s := pre + RenderAll(bs) + tail;
    if |bs| > 0 {
      var b := bs[0];
      var rest := RenderAll(bs[1..]) + tail;
      assert s == pre + Render(b) + rest;
      Middle(pre, Render(b), rest);
      assert s == (pre + Render(b)) + RenderAll(bs[1..]) + tail;
      LaidOutAll(pre + Render(b), bs[1..], tail);
    }
  }

  lemma {:induction false} ParseLaidOut(s: string, i: nat, bs: seq<Block>, tail: string)
    requires LaidOut(s, i, bs, tail)
    requires forall k :: 0 <= k < |bs| ==> ValidBlock(bs[k])
    requires |tail| <= |s| && Groups(s, |s| - |tail|) == []
    ensures Groups(s, i) == bs
    decreases |bs|
  {
    if |bs| == 0 {
      LaidOutNil(s, i, tail);
    } else {
      var j := i + |Render(bs[0])|;
      LaidOutHead(s, i, bs, tail);
      ParseLaidOut(s, j, bs[1..], tail);
      GroupsCons(s, i, j, bs);
    }
  }

  /** One block laid out at `i` followed by the parse of the rest is the parse from `i`. */
  lemma GroupsCons(s: string, i: nat, j: nat, bs: seq<Block>)
    requires |bs| > 0 && ValidBlock(bs[0])
    requires j == i + |Render(bs[0])| && j <= |s| && s[i..j] == Render(bs[0])
    requires Groups(s, j) == bs[1..]
    ensures Groups(s, i) == bs
  {
    ParseStep(s, i, bs[0]);
    assert bs == [bs[0]] + bs[1..];
  }

  /** An empty layout is exactly the tail. */
  lemma LaidOutNil(s: string, i: nat, tail: string)
    requires LaidOut(s, i, [], tail)
    ensures i == |s| - |tail|
  {
    assert |s[i..]| == |tail|;
  }

  /** The first block of a non-empty layout, and the layout of the rest after it. */
  lemma LaidOutHead(s: string, i: nat, bs: seq<Block>, tail: string)
    requires |bs| > 0 && LaidOut(s, i, bs, tail)
    requires forall k :: 0 <= k < |bs| ==> ValidBlock(bs[k])
    ensures ValidBlock(bs[0])
    ensures i + |Render(bs[0])| <= |s| && s[i..i + |Render(bs[0])|] == Render(bs[0])
    ensures LaidOut(s, i + |Render(bs[0])|, bs[1..], tail)
    ensures forall k :: 0 <= k < |bs[1..]| ==> ValidBlock(bs[1..][k])
  {
    forall k | 0 <= k < |bs[1..]|
      ensures ValidBlock(bs[1..][k])
    {
      assert bs[1..][k] == bs[k + 1];
    }
  }

  /** A tail with no blank line holds no match. */
  lemma TailNoMatch(s: string, i: nat, tail: string)
    requires i <= |s| && s[i..] == tail
    requires NoBlankIn(tail, 0, |tail|)
    ensures FindAll(s, i) == []
  {
    forall k | i <= k < |s| - 1
      ensures !BlankAt(s, k)
    {
      assert s[k] == tail[k - i] && s[k + 1] == tail[k - i + 1];
      assert !BlankAt(tail, k - i);
    }
    NoBlankNoMatch(s, i);
  }

  /** A text ending in a tail with no blank line has no match in that tail. */
  lemma TailQuiet(s: string, tail: string)
    requires |tail| <= |s| && s[|s| - |tail|..] == tail
    requires NoBlankIn(tail, 0, |tail|)
    ensures Groups(s, |s| - |tail|) == []
  {
    TailNoMatch(s, |s| - |tail|, tail);
  }

  /** Leading text with no newline and not ending in a digit (a byte-order mark, say) never
      starts a match, so scanning from the start finds what scanning from its end finds. */
  lemma SkipJunk(s: string, j: nat)
    requires j <= |s| && !HasChar(s[..j], '\n')
    requires j == 0 || !IsDigit(s[j - 1])
    ensures FindAll(s, 0) == FindAll(s, j)
  {
    forall p | 0 <= p < j
      ensures MatchAt(s, p).None?
    {
      JunkFails(s, j, p);
    }
    SkipNoMatch(s, 0, j);
  }

  lemma JunkFails(s: string, j: nat, p: nat)
    requires j <= |s| && !HasChar(s[..j], '\n')
    requires p < j && !IsDigit(s[j - 1])
    ensures MatchAt(s, p).None?
  {
    var n := DigitRun(s, p);
    var run := s[p..p + n];
    forall q | p <= q < p + n
      ensures IsDigit(s[q])
    {
      assert run[q - p] == s[q];
    }
    assert p + n < j;
    assert s[..j][p + n] == s[p + n];
  }

  /** A file of valid blocks, behind such leading text and before a tail with no blank line,
      yields exactly its blocks. */
  lemma ParseWithJunk(junk: string, bs: seq<Block>, tail: string)
    requires !HasChar(junk, '\n')
    requires |junk| == 0 || !IsDigit(junk[|junk| - 1])
    requires forall k :: 0 <= k < |bs| ==> ValidBlock(bs[k])
    requires NoBlankIn(tail, 0, |tail|)
    ensures Groups(junk + RenderAll(bs) + tail, 0) == bs
  {
    var s := junk + RenderAll(bs) + tail;
    assert !HasChar(s[..|junk|], '\n') && (|junk| == 0 || !IsDigit(s[|junk| - 1])) by {
      Front(junk, RenderAll(bs), tail);
    }
    assert LaidOut(s, |junk|, bs, tail) by {
      LaidOutAll(junk, bs, tail);
    }
    assert s[|s| - |tail|..] == tail;
    TailQuiet(s, tail);
    ParseAfterJunk(s, |junk|, bs, tail);
  }

  lemma ParseAfterJunk(s: string, j: nat, bs: seq<Block>, tail: string)
    requires j <= |s| && !HasChar(s[..j], '\n')
    requires j == 0 || !IsDigit(s[j - 1])
    requires LaidOut(s, j, bs, tail)
    requires forall k :: 0 <= k < |bs| ==> ValidBlock(bs[k])
    requires |tail| <= |s| && Groups(s, |s| - |tail|) == []
    ensures Groups(s, 0) == bs
  {
    SkipJunk(s, j);
    ParseLaidOut(s, j, bs, tail);
  }
}
