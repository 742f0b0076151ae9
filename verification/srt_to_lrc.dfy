/** `srt_to_lrc.py`: every subtitle block the pattern finds becomes one lyric line
    "[start] text", where start is the block's start timecode with its comma turned into a dot;
    the lines are joined by newlines, with none after the last. The lyric goes next to the
    subtitle file, under the same root with the extension ".lrc", and the subtitle is removed. */
module SrtToLrc {
  import opened Strings
  import opened Wrappers
  import opened SrtPattern
  import PosixPath

  /** A file tree: each file's path and its text. */
  type Disk = map<string, string>

  /** `start_time.replace(',', '.')` */
  function LrcStamp(t: string): (r: string)
    ensures |r| == |t|
    ensures !HasChar(r, ',')
  {
    ReplaceChar(t, ',', '.')
  }

  /** `HH:MM:SS.mmm`, the shape of a stamp made from a timecode. */
  predicate IsLrcStamp(t: string) {
    && |t| == 12
    && IsDigit(t[0]) && IsDigit(t[1]) && t[2] == ':'
    && IsDigit(t[3]) && IsDigit(t[4]) && t[5] == ':'
    && IsDigit(t[6]) && IsDigit(t[7]) && t[8] == '.'
    && IsDigit(t[9]) && IsDigit(t[10]) && IsDigit(t[11])
  }

  /** A stamp made from a timecode is 12 characters `DD:DD:DD.DDD`, and turning its dot back into a
      comma gives the timecode again. */
  lemma StampRoundTrip(t: string)
    requires IsTimecode(t)
    ensures IsLrcStamp(LrcStamp(t))
    ensures ReplaceChar(LrcStamp(t), '.', ',') == t
  {
    var u := LrcStamp(t);
    var v := ReplaceChar(u, '.', ',');
    forall k | 0 <= k < 12
      ensures v[k] == t[k]
    {
      assert t[k] != '.';
    }
  }

  /** One lyric line: `f'[{start_time}] {text}'`. */
  function LrcLine(b: Block): string {
    "[" + LrcStamp(b.startTime) + "] " + b.text
  }

  /** Reads a lyric line back into its start timecode and text; `None` for anything that is not a
      line of that shape. */
  function ParseLrcLine(l: string): (r: Option<(string, string)>)
    ensures r.Some? ==> IsTimecode(r.value.0)
  {
    if |l| < 15 || l[0] != '[' || l[13] != ']' || l[14] != ' ' || !IsLrcStamp(l[1..13]) then None
    else
      var t := ReplaceChar(l[1..13], '.', ',');
      assert t[8] == ',';
      Some((t, l[15..]))
  }

  /** A lyric line holds exactly the start timecode and the text of its block. */
  lemma LineRoundTrip(b: Block)
    requires IsTimecode(b.startTime)
    ensures ParseLrcLine(LrcLine(b)) == Some((b.startTime, b.text))
  {
    StampRoundTrip(b.startTime);
    LineLayout(b);
  }

  /** Where the parts of a lyric line sit, for a 12-character stamp. */
  lemma LineLayout(b: Block)
    requires |LrcStamp(b.startTime)| == 12
    ensures var l := LrcLine(b);
      && |l| >= 15 && l[0] == '[' && l[13] == ']' && l[14] == ' '
      && l[1..13] == LrcStamp(b.startTime) && l[15..] == b.text
  {
    var l := LrcLine(b);
    var stamp := LrcStamp(b.startTime);
    assert l == "[" + stamp + "] " + b.text;
    assert l[1..13] == stamp;
    assert l[15..] == b.text;
  }

  /** The end timecode never reaches the output. */
  lemma LineIgnoresEnd(b: Block, endTime: string)
    ensures LrcLine(b.(endTime := endTime)) == LrcLine(b)
  {
  }

  /** A lyric line has a newline exactly where its text has one. */
  lemma LineNewlines(b: Block)
    requires IsTimecode(b.startTime)
    ensures HasChar(LrcLine(b), '\n') <==> HasChar(b.text, '\n')
  {
    var stamp := LrcStamp(b.startTime);
    StampRoundTrip(b.startTime);
    var p := "[" + stamp + "] ";
    assert !HasChar(p, '\n') by {
      StampNoNewline(stamp);
      HasCharConcat("[", stamp, '\n');
      HasCharConcat("[" + stamp, "] ", '\n');
    }
    assert LrcLine(b) == p + b.text;
    HasCharConcat(p, b.text, '\n');
  }

  /** A stamp is digits, colons and a dot: no newline. */
  lemma StampNoNewline(t: string)
    requires IsLrcStamp(t)
    ensures !HasChar(t, '\n')
  {
    forall k | 0 <= k < |t|
      ensures t[k] != '\n'
    {
    }
  }

  /** The lyric lines of the blocks, one each, in order. */
  function Lines(bs: seq<Block>): (ls: seq<string>)
    ensures |ls| == |bs|
  {
    seq(|bs|, k requires 0 <= k < |bs| => LrcLine(bs[k]))
  }

  /** The `k`-th lyric line reads back as the `k`-th block's start timecode and text. */
  lemma LinesRoundTrip(bs: seq<Block>)
    ensures forall k :: 0 <= k < |bs| && IsTimecode(bs[k].startTime) ==>
      ParseLrcLine(Lines(bs)[k]) == Some((bs[k].startTime, bs[k].text))
  {
    forall k | 0 <= k < |bs| && IsTimecode(bs[k].startTime)
      ensures ParseLrcLine(Lines(bs)[k]) == Some((bs[k].startTime, bs[k].text))
    {
      LineRoundTrip(bs[k]);
    }
  }

  /** The lyric text made from a subtitle text. */
  function Convert(s: string): string {
    Join(Lines(Groups(s, 0)), "\n")
  }

  /** The conversion loop of the script: one line per match, a newline after every line but the
      last. It computes `Convert`. */
  method ConvertText(s: string) returns (out: string)
    ensures out == Convert(s)
  {
    var matches := Groups(s, 0);
    var lines := Lines(matches);
    out := "";
    var i := 0;
    while i < |matches|
      invariant 0 <= i <= |matches|
      invariant i == 0 ==> out == ""
      invariant 0 < i ==> out == Join(lines[..i], "\n") + (if i < |matches| then "\n" else "")
    {
      var startTime := LrcStamp(matches[i].startTime);
      var line := "[" + startTime + "] " + matches[i].text;
      assert line == lines[i];
      assert lines[..i + 1] == lines[..i] + [line];
      if i == 0 {
        assert lines[..1] == [line];
      } else {
        JoinSnoc(lines[..i], line, "\n");
      }
      out := out + line;
      if i != |matches| - 1 {
        out := out + "\n";
      }
      i := i + 1;
    }
    assert lines[..|matches|] == lines;
  }

  lemma LineNonEmpty(b: Block)
    ensures |LrcLine(b)| >= 3
  {
  }

  /** The lyric text is empty exactly when the pattern finds nothing. */
  lemma ConvertEmpty(s: string)
    ensures Convert(s) == "" <==> FindAll(s, 0) == []
  {
    var ls := Lines(Groups(s, 0));
    forall k | 0 <= k < |ls|
      ensures |ls[k]| > 0
    {
      LineNonEmpty(Groups(s, 0)[k]);
    }
    JoinEmpty(ls, "\n");
  }

  /** A subtitle text written as valid blocks, followed by anything without a blank line (an
      unfinished last block, say), converts to exactly the lines of those blocks. */
  lemma ConvertRendered(bs: seq<Block>, tail: string)
    requires forall k :: 0 <= k < |bs| ==> ValidBlock(bs[k])
    requires NoBlankIn(tail, 0, |tail|)
    ensures Convert(RenderAll(bs) + tail) == Join(Lines(bs), "\n")
  {
    var s := RenderAll(bs) + tail;
    assert LaidOut(s, 0, bs, tail) by {
      LaidOutFromStart(bs, tail);
    }
    assert Groups(s, 0) == bs by {
      assert s[|s| - |tail|..] == tail;
      TailQuiet(s, tail);
      ParseLaidOut(s, 0, bs, tail);
    }
    ConvertOf(s, bs);
  }

  lemma ConvertOf(s: string, bs: seq<Block>)
    requires Groups(s, 0) == bs
    ensures Convert(s) == Join(Lines(bs), "\n")
  {
  }

  /** When no text spans several lines, the lyric text has one line per block found: splitting it
      at its newlines gives the lines back, in order. */
  lemma ConvertOneLinePerBlock(s: string)
    requires FindAll(s, 0) != []
    requires forall m :: m in FindAll(s, 0) ==> !HasChar(m.block.text, '\n')
    ensures Split(Convert(s), '\n') == Lines(Groups(s, 0))
  {
    var ms := FindAll(s, 0);
    var bs := Blocks(ms);
    var ls := Lines(bs);
    forall k | 0 <= k < |ls|
      ensures !HasChar(ls[k], '\n')
    {
      var m := ms[k];
      assert m in ms;
      assert IsTimecode(m.block.startTime) by {
        FindAllSound(s);
      }
      BlocksAt(ms, k);
      LineNewlines(m.block);
    }
    SplitJoin(ls, '\n');
  }

  /** No text that reaches the output holds a blank line, and each comes from a block that sits,
      rendered, in the input. */
  lemma ConvertedTexts(s: string)
    ensures forall b :: b in Groups(s, 0) ==> ValidBlock(b) && Contains(s, Render(b))
  {
    forall b | b in Groups(s, 0)
      ensures ValidBlock(b) && Contains(s, Render(b))
    {
      var m := BlockOrigin(FindAll(s, 0), b);
      MatchInInput(s, m);
    }
  }

  lemma MatchInInput(s: string, m: Match)
    requires m in FindAll(s, 0)
    ensures ValidBlock(m.block) && Contains(s, Render(m.block))
  {
    FindAllSound(s);
    ContainsAt(s, Render(m.block), m.from);
  }

  lemma BlockOrigin(ms: seq<Match>, b: Block) returns (m: Match)
    requires b in Blocks(ms)
    ensures m in ms && m.block == b
  {
    var k :| 0 <= k < |Blocks(ms)| && Blocks(ms)[k] == b;
    BlocksAt(ms, k);
    m := ms[k];
  }

  /** The final block of a file whose closing blank line is missing yields no line. */
  lemma UnfinishedLastBlock(bs: seq<Block>, last: Block)
    requires forall k :: 0 <= k < |bs| ==> ValidBlock(bs[k])
    requires ValidBlock(last)
    ensures Convert(RenderAll(bs) + Unfinished(last)) == Join(Lines(bs), "\n")
  {
    var tail := Unfinished(last);
    var s := RenderAll(bs) + tail;
    assert LaidOut(s, 0, bs, tail) by {
      LaidOutFromStart(bs, tail);
    }
    assert Groups(s, 0) == bs by {
      assert s[|s| - |tail|..] == tail;
      UnfinishedNoMatch(s, |s| - |tail|, last);
      ParseLaidOut(s, 0, bs, tail);
    }
    ConvertOf(s, bs);
  }

  /** A block written out with only one newline after its text. */
  function Unfinished(b: Block): string {
    b.index + "\n" + TimeRange(b) + "\n" + b.text + "\n"
  }

  /** Past its time line, a block written out with one newline after its text holds no blank line. */
  lemma UnfinishedLateQuiet(s: string, i: nat, b: Block)
    requires ValidBlock(b)
    requires i <= |s| && s[i..] == Unfinished(b)
    ensures NoBlankIn(s, i + |b.index| + 31, |s|)
  {
    var e := i + |b.index|;
    var t := b.text;
    var head := b.index + "\n" + TimeRange(b) + "\n";
    assert s[i..] == head + t + "\n";
    assert |head| == |b.index| + 31;
    forall k | e + 31 <= k < |s| - 1
      ensures !BlankAt(s, k)
    {
      assert s[k] == s[i..][k - i];
      if k < e + 30 + |t| {
        assert s[k] == t[k - e - 31] && s[k + 1] == t[k - e - 30];
        assert !BlankAt(t, k - e - 31);
      } else {
        assert s[k] == t[|t| - 1];
      }
    }
  }

  /** The pattern fails inside an index that no blank line follows closely enough. */
  lemma DigitsThenQuiet(s: string, p: nat, e: nat)
    requires p <= e < |s| && AllDigits(s[p..e]) && !IsDigit(s[e])
    requires NoBlankIn(s, e + 31, |s|)
    ensures MatchAt(s, p).None?
  {
    DigitRunIs(s, p, e - p);
    MatchBlankAfterIndex(s, p);
    MatchEndsBlank(s, p);
  }

  /** Nothing is found from the start of an index that no blank line follows closely enough. */
  lemma {:induction false} IndexThenQuiet(s: string, i: nat, e: nat)
    requires i <= e < |s| && !IsDigit(s[e])
    requires forall k :: i <= k < e ==> IsDigit(s[k])
    requires NoBlankIn(s, e + 31, |s|)
    ensures FindAll(s, i) == []
    decreases e - i
  {
    assert AllDigits(s[i..e]) by {
      forall k | 0 <= k < e - i
        ensures IsDigit(s[i..e][k])
      {
        assert s[i..e][k] == s[i + k];
      }
    }
    DigitsThenQuiet(s, i, e);
    if i < e {
      IndexThenQuiet(s, i + 1, e);
    } else {
      NoLateBlank(s, e + 1, e + 31);
    }
  }

  /** Nothing is found in a block written out with one newline after its text: the only blank
      line it can hold is the one an empty text or a text starting with a newline makes right after
      the time line, and that is too close to any index before it. */
  lemma UnfinishedNoMatch(s: string, i: nat, b: Block)
    requires ValidBlock(b)
    requires i <= |s| && s[i..] == Unfinished(b)
    ensures Groups(s, i) == []
  {
    var e := i + |b.index|;
    UnfinishedLateQuiet(s, i, b);
    forall k | i <= k < e
      ensures IsDigit(s[k])
    {
      assert s[k] == s[i..][k - i] == b.index[k - i];
    }
    assert s[e] == s[i..][e - i];
    IndexThenQuiet(s, i, e);
  }

  /** `os.path.splitext(srt_path)[0] + '.lrc'` */
  function LrcPath(p: string): string {
    PosixPath.SplitExt(p).root + ".lrc"
  }

  /** The lyric lies in the subtitle's directory. */
  lemma LrcPathDir(p: string)
    ensures PosixPath.Dirname(LrcPath(p)) == PosixPath.Dirname(p)
  {
    var parts := PosixPath.SplitExt(p);
    var q := LrcPath(p);
    PosixPath.SplitExtRoot(p);
    LrcNoSlash();
    PosixPath.RFindSkip(parts.root, '/', ".lrc");
    var h := PosixPath.HeadLength(p);
    assert q[..h] == p[..h] by {
      assert q[..h] == parts.root[..h];
      assert p[..h] == (parts.root + parts.ext)[..h];
    }
    PosixPath.DirnameOfHead(q, p);
  }

  /** When the subtitle path has an extension, the lyric path splits into the subtitle's root and
      ".lrc": the extension is replaced and the rest kept. */
  lemma LrcPathExt(p: string)
    requires PosixPath.SplitExt(p).ext != ""
    ensures PosixPath.SplitExt(LrcPath(p)) == PosixPath.Parts(PosixPath.SplitExt(p).root, ".lrc")
  {
    PosixPath.SplitExtRoot(p);
    AppendLrc(PosixPath.SplitExt(p).root);
  }

  lemma AppendLrc(root: string)
    requires !AllChar(PosixPath.Basename(root), '.')
    ensures PosixPath.SplitExt(root + ".lrc") == PosixPath.Parts(root, ".lrc")
  {
    assert !HasChar("lrc", '.') && !HasChar("lrc", '/') by {
      forall j | 0 <= j < 3
        ensures "lrc"[j] != '.' && "lrc"[j] != '/'
      {
      }
    }
    PosixPath.SplitExtAppend(root, "lrc");
    assert root + "." + "lrc" == root + ".lrc";
  }

  lemma LrcNoSlash()
    ensures !HasChar(".lrc", '/')
  {
    forall j | 0 <= j < 4
      ensures ".lrc"[j] != '/'
    {
    }
  }

  /** The script as a whole on a file tree: read the subtitle file, write the lyric file, remove
      the subtitle file. `None` where reading fails because the file is missing. After the script
      the lyric file holds the converted text and the subtitle file is gone (unless the two paths
      coincide, when the lyric is removed as well); no other file changes. */
  function ConvertFile(disk: Disk, srt: string): (r: Option<Disk>)
    ensures r.Some? <==> srt in disk
    ensures r.Some? ==>
      && srt !in r.value
      && (LrcPath(srt) != srt ==> LrcPath(srt) in r.value && r.value[LrcPath(srt)] == Convert(disk[srt]))
      && (forall p :: p in disk && p != srt && p != LrcPath(srt) ==> p in r.value && r.value[p] == disk[p])
      && (forall p :: p in r.value ==> p in disk || p == LrcPath(srt))
  {
    if srt !in disk then None
    else Some(disk[LrcPath(srt) := Convert(disk[srt])] - {srt})
  }
}
