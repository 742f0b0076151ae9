/** `main.py`: walk a folder, collect the audio files, and for each one without a lyric next to it
    run the transcriber, convert the subtitle it left next to the audio file, and delete the
    transcriber's other outputs from that directory. The transcriber is not modelled: each of its
    runs is a given result, either the files it wrote or a failure, which ends the batch. */
module MainScript {
  import opened Strings
  import opened Wrappers
  import PosixPath
  import SrtToLrc

  type Disk = SrtToLrc.Disk

  /** `file.endswith((".mp3", ".wav"))`: case-sensitive. */
  predicate IsAudioName(name: string) {
    EndsWith(name, ".mp3") || EndsWith(name, ".wav")
  }

  /** One file as the walk reports it: the directory it was found in and its name. */
  datatype Entry = Entry(root: string, name: string)

  /** The test of the collection loop. */
  predicate IsAudioEntry(e: Entry) {
    IsAudioName(e.name)
  }

  /** `os.path.join(root, file)` */
  function EntryPath(e: Entry): string {
    PosixPath.Join(e.root, e.name)
  }

  /** The audio entries of a walk, in walk order. */
  function AudioEntries(walk: seq<Entry>): seq<Entry> {
    Filter(IsAudioEntry, walk)
  }

  /** The list of audio files the script builds: each audio entry joined onto its directory. */
  function Collect(walk: seq<Entry>): (r: seq<string>)
    ensures |r| == |AudioEntries(walk)| <= |walk|
  {
    MapSeq(EntryPath, AudioEntries(walk))
  }

  /** An entry is collected exactly when its name ends in ".mp3" or ".wav". */
  lemma AudioEntriesMembers(walk: seq<Entry>)
    ensures forall e :: e in AudioEntries(walk) <==> e in walk && IsAudioName(e.name)
  {
    FilterMembers(IsAudioEntry, walk);
  }

  /** The collection keeps walk order: the audio entries are a subsequence of the walk. */
  lemma AudioEntriesInOrder(walk: seq<Entry>)
    ensures IsSubsequence(AudioEntries(walk), walk)
  {
    FilterInOrder(IsAudioEntry, walk);
  }

  /** The `k`-th collected path joins the `k`-th audio entry's directory and name. */
  lemma CollectAt(walk: seq<Entry>, k: nat)
    requires k < |Collect(walk)|
    ensures Collect(walk)[k] == PosixPath.Join(AudioEntries(walk)[k].root, AudioEntries(walk)[k].name)
  {
    MapSeqAt(EntryPath, AudioEntries(walk), k);
  }

  /** `os.path.splitext(os.path.basename(file))[0]` */
  function AudioStem(f: string): string {
    PosixPath.SplitExt(PosixPath.Basename(f)).root
  }

  /** `os.path.join(os.path.dirname(file), stem + ext)` */
  function Sibling(f: string, ext: string): string {
    PosixPath.Join(PosixPath.Dirname(f), AudioStem(f) + ext)
  }

  function LrcSibling(f: string): string {
    Sibling(f, ".lrc")
  }

  function SrtSibling(f: string): string {
    Sibling(f, ".srt")
  }

  lemma StemNoSlash(f: string)
    ensures !HasChar(AudioStem(f), '/')
  {
    var b := PosixPath.Basename(f);
    var st := AudioStem(f);
    assert b == st + PosixPath.SplitExt(b).ext;
    forall j | 0 <= j < |st|
      ensures st[j] != '/'
    {
      assert st[j] == b[j];
    }
  }

  /** The stem of an audio file name is never empty nor all dots: either an extension was split off,
      which the split rule forbids after such a stem, or the whole name, ending in a letter or digit,
      is the stem. */
  lemma StemNotDots(f: string)
    requires IsAudioName(PosixPath.Basename(f))
    ensures !AllChar(AudioStem(f), '.')
  {
    var b := PosixPath.Basename(f);
    var parts := PosixPath.SplitExt(b);
    PosixPath.SplitExtRoot(b);
    if parts.ext == "" {
      assert parts.root == b;
      assert b[|b| - 1] == b[|b| - 4..][3];
    } else {
      assert RFind(b, '/') == -1;
      assert PosixPath.Basename(parts.root) == parts.root;
    }
  }

  /** A sibling is in the audio file's directory and is named by its stem and the new extension. */
  lemma SiblingParts(f: string, ext: string)
    requires !HasChar(ext, '/')
    ensures PosixPath.Dirname(Sibling(f, ext)) == PosixPath.Dirname(f)
    ensures PosixPath.Basename(Sibling(f, ext)) == AudioStem(f) + ext
  {
    PosixPath.DirnameForm(f);
    StemNoSlash(f);
    HasCharConcat(AudioStem(f), ext, '/');
    PosixPath.JoinParts(PosixPath.Dirname(f), AudioStem(f) + ext);
  }

  /** `os.path.join(d, n + x)` is `os.path.join(d, n)` followed by `x` when neither part starts a
      new absolute path. */
  lemma JoinAppend(d: string, n: string, x: string)
    requires !HasChar(n, '/') && x != "" && x[0] != '/'
    ensures PosixPath.Join(d, n + x) == PosixPath.Join(d, n) + x
  {
    var m := n + x;
    assert m[0] != '/' by {
      if |n| > 0 {
        assert m[0] == n[0];
      } else {
        assert m == x;
      }
    }
    assert !(|n| > 0 && n[0] == '/') by {
      if |n| > 0 { assert m[0] == n[0]; }
    }
    if d == "" || d[|d| - 1] == '/' {
      assert d + m == (d + n) + x;
    } else {
      assert d + "/" + m == (d + "/" + n) + x;
    }
  }

  /** Joining a stem that is more than dots, followed by an extension, onto a directory: `splitext`
      of the result splits off exactly that extension. */
  lemma JoinedRoot(d: string, st: string, ext: string)
    requires PosixPath.IsDirForm(d)
    requires !HasChar(st, '/') && !AllChar(st, '.')
    requires PosixPath.DotExt(ext)
    ensures PosixPath.SplitExt(PosixPath.Join(d, st + ext)).root == PosixPath.Join(d, st)
  {
    var j := PosixPath.Join(d, st);
    assert PosixPath.Basename(j) == st by {
      PosixPath.JoinParts(d, st);
    }
    PosixPath.SplitExtDotted(j, ext);
    JoinAppend(d, st, ext);
  }

  /** The subtitle next to an audio file converts to exactly the lyric path the script checks
      before transcribing: the two halves of the script agree. */
  lemma SrtConvertsToSibling(f: string)
    requires IsAudioName(PosixPath.Basename(f))
    ensures SrtToLrc.LrcPath(SrtSibling(f)) == LrcSibling(f)
  {
    var d := PosixPath.Dirname(f);
    var st := AudioStem(f);
    assert PosixPath.SplitExt(SrtSibling(f)).root == PosixPath.Join(d, st) by {
      StemNoSlash(f);
      StemNotDots(f);
      PosixPath.DirnameForm(f);
      PosixPath.KnownExts(".srt");
      JoinedRoot(d, st, ".srt");
    }
    assert LrcSibling(f) == PosixPath.Join(d, st) + ".lrc" by {
      StemNoSlash(f);
      JoinAppend(d, st, ".lrc");
    }
  }

  /** A file named by a stem and an extension has its lyric in the same directory under the same
      stem. */
  lemma SiblingOfJoined(d: string, st: string, ext: string)
    requires PosixPath.IsDirForm(d)
    requires !HasChar(st, '/') && !AllChar(st, '.')
    requires PosixPath.DotExt(ext)
    ensures LrcSibling(PosixPath.Join(d, st + ext)) == PosixPath.Join(d, st + ".lrc")
  {
    var n := st + ext;
    assert !HasChar(n, '/') by {
      HasCharConcat(st, ext, '/');
    }
    PosixPath.JoinParts(d, n);
    NameRoot(st, ext);
    assert AudioStem(PosixPath.Join(d, n)) == st;
  }

  /** `splitext` of a stem that is more than dots, followed by an extension, gives back the stem. */
  lemma NameRoot(st: string, ext: string)
    requires !HasChar(st, '/') && !AllChar(st, '.')
    requires PosixPath.DotExt(ext)
    ensures PosixPath.SplitExt(st + ext).root == st
  {
    JoinedRoot("", st, ext);
    assert PosixPath.Join("", st + ext) == st + ext;
    assert PosixPath.Join("", st) == st;
  }

  /** "song.mp3" and "song.wav" in one directory share their lyric: whichever is processed first
      writes it, and the other is then skipped. */
  lemma SharedLyric()
    ensures LrcSibling("music/song.mp3") == LrcSibling("music/song.wav") == "music/song.lrc"
  {
    SongPaths();
    assert LrcSibling("music/song.mp3") == "music/song.lrc" by {
      SongStem();
      PosixPath.KnownExts(".mp3");
      SiblingOfJoined("music", "song", ".mp3");
    }
    assert LrcSibling("music/song.wav") == "music/song.lrc" by {
      SongStem();
      PosixPath.KnownExts(".wav");
      SiblingOfJoined("music", "song", ".wav");
    }
  }

  lemma SongStem()
    ensures !HasChar("song", '/') && !AllChar("song", '.') && PosixPath.IsDirForm("music")
  {
    var st := "song";
    forall j | 0 <= j < 4
      ensures st[j] != '/'
    {
    }
    assert st[0] != '.';
  }

  lemma SongPaths()
    ensures PosixPath.Join("music", "song" + ".mp3") == "music/song.mp3"
    ensures PosixPath.Join("music", "song" + ".wav") == "music/song.wav"
    ensures PosixPath.Join("music", "song" + ".lrc") == "music/song.lrc"
  {
  }

  /** The names the cleanup deletes: the stem occurs anywhere in the name (not only at its start)
      and the name ends in one of the transcriber's side-output extensions. */
  predicate IsDebrisName(stem: string, name: string) {
    && Contains(name, stem)
    && (EndsWith(name, ".json") || EndsWith(name, ".tsv") || EndsWith(name, ".txt") || EndsWith(name, ".vtt"))
  }

  /** Whether the cleanup after processing `f` deletes the file at `p`: `p` is in the directory of
      `f` and its name is debris for the stem of `f`. */
  predicate Doomed(f: string, p: string) {
    PosixPath.Dirname(p) == PosixPath.Dirname(f) && IsDebrisName(AudioStem(f), PosixPath.Basename(p))
  }

  /** The cleanup loop of the script on a file tree. It deletes every file of the audio file's
      directory that is named like debris of its stem, and nothing else: it never deletes an audio
      file, a lyric or a subtitle, nor a file of another directory. */
  function Cleanup(disk: Disk, f: string): (r: Disk)
    ensures forall p :: p in disk && Doomed(f, p) ==> p !in r
    ensures forall p :: p in r ==> p in disk && r[p] == disk[p]
    ensures forall p :: p in disk && Protected(p) ==> p in r
    ensures forall p :: p in disk && PosixPath.Dirname(p) != PosixPath.Dirname(f) ==> p in r
    ensures forall p :: p in disk && p !in r ==> IsDebrisName(AudioStem(f), PosixPath.Basename(p))
  {
    ProtectedSpared(f);
    map p | p in disk && !Doomed(f, p) :: disk[p]
  }

  /** Cleaning up a second time after the same file deletes nothing more. */
  lemma CleanupIdempotent(disk: Disk, f: string)
    ensures Cleanup(Cleanup(disk, f), f) == Cleanup(disk, f)
  {
    var once := Cleanup(disk, f);
    var twice := Cleanup(once, f);
    forall p | p in once
      ensures p in twice
    {
      assert !Doomed(f, p);
    }
    assert twice.Keys == once.Keys;
  }

  lemma ProtectedSpared(f: string)
    ensures forall p :: Protected(p) ==> !Doomed(f, p)
  {
    forall p | Protected(p)
      ensures !Doomed(f, p)
    {
      ProtectedNotDoomed(f, p);
    }
  }

  lemma EndsWithDiffer(s: string, x: string, y: string)
    requires |x| == |y| && x != y
    ensures !(EndsWith(s, x) && EndsWith(s, y))
  {
  }

  lemma EndsWithShorter(s: string, x: string, y: string)
    requires |y| <= |x| && EndsWith(s, x) && x[|x| - |y|..] != y
    ensures !EndsWith(s, y)
  {
    assert s[|s| - |y|..] == s[|s| - |x|..][|x| - |y|..];
  }

  /** A debris name never ends in ".mp3", ".wav", ".lrc" or ".srt", so the cleanup spares the audio
      files, the lyrics and the subtitles. */
  lemma DebrisSparesOwnFiles(stem: string, name: string)
    requires IsDebrisName(stem, name)
    ensures !EndsWith(name, ".mp3") && !EndsWith(name, ".wav")
    ensures !EndsWith(name, ".lrc") && !EndsWith(name, ".srt")
  {
    var others := [".mp3", ".wav", ".lrc", ".srt"];
    forall o | o in others
      ensures !EndsWith(name, o)
    {
      if EndsWith(name, ".json") {
        EndsWithShorter(name, ".json", o);
      } else if EndsWith(name, ".tsv") {
        EndsWithDiffer(name, ".tsv", o);
      } else if EndsWith(name, ".txt") {
        EndsWithDiffer(name, ".txt", o);
      } else {
        EndsWithDiffer(name, ".vtt", o);
      }
    }
    assert ".mp3" in others && ".wav" in others && ".lrc" in others && ".srt" in others;
  }

  /** A path ends with whatever its last component ends with. */
  lemma EndsWithBasename(p: string, x: string)
    requires !HasChar(x, '/')
    ensures EndsWith(p, x) <==> EndsWith(PosixPath.Basename(p), x)
  {
    if EndsWith(p, x) {
      BasenameKeepsEnd(p, x);
    }
    if EndsWith(PosixPath.Basename(p), x) {
      var b := PosixPath.Basename(p);
      var h := PosixPath.HeadLength(p);
      assert p[|p| - |x|..] == b[|b| - |x|..];
    }
  }

  /** An ending without '/' lies wholly inside the last component. */
  lemma BasenameKeepsEnd(p: string, x: string)
    requires !HasChar(x, '/') && EndsWith(p, x)
    ensures EndsWith(PosixPath.Basename(p), x)
  {
    var b := PosixPath.Basename(p);
    var h := PosixPath.HeadLength(p);
    var e := |p| - |x|;
    forall j | e <= j < |p|
      ensures p[j] != '/'
    {
      assert p[j] == p[e..][j - e] == x[j - e];
    }
    assert h <= e;
    assert b[|b| - |x|..] == p[e..];
  }

  /** Paths the cleanup never deletes: anything ending in ".mp3", ".wav", ".lrc" or ".srt". */
  predicate Protected(p: string) {
    EndsWith(p, ".mp3") || EndsWith(p, ".wav") || EndsWith(p, ".lrc") || EndsWith(p, ".srt")
  }

  lemma ProtectedNotDoomed(f: string, p: string)
    requires Protected(p)
    ensures !Doomed(f, p)
  {
    if Doomed(f, p) {
      var b := PosixPath.Basename(p);
      DebrisSparesOwnFiles(AudioStem(f), b);
      NoSlashExts();
      EndsWithBasename(p, ".mp3");
      EndsWithBasename(p, ".wav");
      EndsWithBasename(p, ".lrc");
      EndsWithBasename(p, ".srt");
      assert false;
    }
  }

  lemma NoSlashExts()
    ensures !HasChar(".mp3", '/') && !HasChar(".wav", '/') && !HasChar(".lrc", '/') && !HasChar(".srt", '/')
  {
    forall j | 0 <= j < 4
      ensures ".mp3"[j] != '/' && ".wav"[j] != '/' && ".lrc"[j] != '/' && ".srt"[j] != '/'
    {
    }
  }

  /** The match is on a substring, not on a prefix: a file merely containing the stem goes too. */
  lemma DebrisAnywhereInName()
    ensures IsDebrisName("song", "my song.txt")
    ensures IsDebrisName("a", "data.txt")
  {
    ContainsAt("my song.txt", "song", 3);
    ContainsAt("data.txt", "a", 1);
  }

  /** One file of the batch. `engine` is what the transcriber run left behind: `None` when it
      failed, which raises and ends the script (`None` here too). The transcriber runs exactly when
      no lyric is next to the file: with a lyric there the file is skipped and nothing changes,
      whatever the transcriber would do; without one its failure ends the batch. */
  function ProcessFile(disk: Disk, f: string, engine: Option<Disk>): (r: Option<Disk>)
    ensures LrcSibling(f) in disk ==> r == Some(disk)
    ensures r.None? <==> LrcSibling(f) !in disk && engine.None?
  {
    if LrcSibling(f) in disk then Some(disk)
    else if engine.None? then None
    else
      var written := disk + engine.value;
      var converted := if SrtSibling(f) in written then SrtToLrc.ConvertFile(written, SrtSibling(f)).value else written;
      Some(Cleanup(converted, f))
  }

  lemma SrtIsProtected(f: string)
    ensures EndsWith(SrtSibling(f), ".srt") && EndsWith(LrcSibling(f), ".lrc")
  {
    NoSlashExts();
    SiblingParts(f, ".srt");
    SiblingParts(f, ".lrc");
    EndsWithBasename(SrtSibling(f), ".srt");
    EndsWithBasename(LrcSibling(f), ".lrc");
  }

  /** What processing one audio file does, against the tree the transcriber left (`written`):
      - with a subtitle next to the file, the lyric next to it holds the converted subtitle;
      - without one, nothing is converted: the lyric next to it is whatever the transcriber left;
      - apart from that lyric, no file is created or changed;
      - files ending in ".mp3", ".wav" or ".lrc" all stay;
      - every transcriber debris file in the audio file's directory goes, and a file that goes is
        either that or the subtitle. */
  lemma ProcessFileEffect(disk: Disk, f: string, engine: Disk)
    requires IsAudioName(PosixPath.Basename(f))
    requires LrcSibling(f) !in disk
    ensures var written := disk + engine;
      var r := ProcessFile(disk, f, Some(engine)).value;
      && (SrtSibling(f) in written ==>
            LrcSibling(f) in r && r[LrcSibling(f)] == SrtToLrc.Convert(written[SrtSibling(f)]))
      && (SrtSibling(f) !in written ==>
            (LrcSibling(f) in r <==> LrcSibling(f) in engine) &&
            (LrcSibling(f) in r ==> r[LrcSibling(f)] == engine[LrcSibling(f)]))
      && (forall p :: p in r && p != LrcSibling(f) ==> p in written && r[p] == written[p])
      && (forall p :: p in disk && Protected(p) && p != SrtSibling(f) ==> p in r)
      && (forall p :: p in written && Doomed(f, p) ==> p !in r)
      && (forall p :: p in written && p !in r ==> p == SrtSibling(f) || Doomed(f, p))
  {
    var written := disk + engine;
    var srt := SrtSibling(f);
    var lrc := LrcSibling(f);
    SrtConvertsToSibling(f);
    SrtIsProtected(f);
    ProtectedNotDoomed(f, lrc);
    forall p | p in disk && Protected(p) && p != srt
      ensures p in ProcessFile(disk, f, Some(engine)).value
    {
      ProtectedNotDoomed(f, p);
    }
  }

  /** The lyric files on a disk. */
  function Lyrics(disk: Disk): set<string> {
    set p | p in disk && EndsWith(p, ".lrc")
  }

  /** The whole batch: collect the audio files of the walk and process them in order. The `k`-th
      transcriber run leaves `engine(k)`. Returns the final tree and how many files were handled
      before a transcriber failure stopped the script (all of them when none failed). Every lyric
      already on disk survives the batch, and every handled file whose transcriber run left a
      subtitle next to it ends with its lyric next to it. A handled file whose run would have
      failed was skipped for its lyric, so the first failing run that is not skipped ends the batch. */
  method RunBatch(disk: Disk, walk: seq<Entry>, engine: nat -> Option<Disk>) returns (out: Disk, done: nat)
    ensures var files := Collect(walk);
      var srts := MapSeq(SrtSibling, files);
      var lrcs := MapSeq(LrcSibling, files);
      && done <= |files|
      && (done < |files| ==> engine(done).None? && lrcs[done] !in out)
      && Lyrics(disk) <= Lyrics(out)
      && (forall k :: 0 <= k < done && engine(k).Some? && srts[k] in engine(k).value ==> lrcs[k] in out)
      && (forall k :: 0 <= k < done && engine(k).None? ==> lrcs[k] in out)
  {
    var files := Collect(walk);
    var srts := MapSeq(SrtSibling, files);
    var lrcs := MapSeq(LrcSibling, files);
    out := disk;
    done := 0;
    while done < |files|
      invariant done <= |files|
      invariant Lyrics(disk) <= Lyrics(out)
      invariant forall k :: 0 <= k < done && engine(k).Some? && srts[k] in engine(k).value ==> lrcs[k] in Lyrics(out)
      invariant forall k :: 0 <= k < done && engine(k).None? ==> lrcs[k] in Lyrics(out)
    {
      var f := files[done];
      var next := ProcessFile(out, f, engine(done));
      MapSeqAt(LrcSibling, files, done);
      if next.None? {
        return;
      }
      CollectedAreAudio(walk, done);
      BatchStep(out, f, engine(done));
      MapSeqAt(SrtSibling, files, done);
      KeepHandled(out, next.value, srts, lrcs, engine, done);
      SkippedKept(out, next.value, lrcs, engine, done);
      out := next.value;
      done := done + 1;
    }
  }

  /** The lyrics of the files handled so far stay when no lyric is lost, and the `n`-th file's
      lyric joins them once it is there. */
  lemma KeepHandled(before: Disk, after: Disk, srts: seq<string>, lrcs: seq<string>, engine: nat -> Option<Disk>, n: nat)
    requires n < |srts| == |lrcs|
    requires Lyrics(before) <= Lyrics(after)
    requires forall k :: 0 <= k < n && engine(k).Some? && srts[k] in engine(k).value ==> lrcs[k] in Lyrics(before)
    requires engine(n).Some? && srts[n] in engine(n).value ==> lrcs[n] in Lyrics(after)
    ensures forall k :: 0 <= k < n + 1 && engine(k).Some? && srts[k] in engine(k).value ==> lrcs[k] in Lyrics(after)
  {
    forall k | 0 <= k < n + 1 && engine(k).Some? && srts[k] in engine(k).value
      ensures lrcs[k] in Lyrics(after)
    {
      if k < n {
        assert lrcs[k] in Lyrics(before);
      }
    }
  }

  /** The files handled so far whose transcriber run failed were skipped, so their lyrics were
      there already; they stay when no lyric is lost, and the `n`-th file joins them likewise. */
  lemma SkippedKept(before: Disk, after: Disk, lrcs: seq<string>, engine: nat -> Option<Disk>, n: nat)
    requires n < |lrcs|
    requires Lyrics(before) <= Lyrics(after)
    requires forall k :: 0 <= k < n && engine(k).None? ==> lrcs[k] in Lyrics(before)
    requires engine(n).None? ==> lrcs[n] in Lyrics(after)
    ensures forall k :: 0 <= k < n + 1 && engine(k).None? ==> lrcs[k] in Lyrics(after)
  {
    forall k | 0 <= k < n + 1 && engine(k).None?
      ensures lrcs[k] in Lyrics(after)
    {
      if k < n {
        assert lrcs[k] in Lyrics(before);
      }
    }
  }

  /** One step of the batch keeps every lyric already there and, when the transcriber left a
      subtitle next to the file, leaves the file's own lyric. A step whose transcriber run failed
      and that did not end the batch was a skip, so the file's lyric is there too. */
  lemma BatchStep(before: Disk, f: string, e: Option<Disk>)
    requires IsAudioName(PosixPath.Basename(f))
    requires ProcessFile(before, f, e).Some?
    ensures Lyrics(before) <= Lyrics(ProcessFile(before, f, e).value)
    ensures e.Some? && SrtSibling(f) in e.value ==> LrcSibling(f) in Lyrics(ProcessFile(before, f, e).value)
    ensures e.None? ==> LrcSibling(f) in Lyrics(ProcessFile(before, f, e).value)
  {
    SrtIsProtected(f);
    if LrcSibling(f) !in before {
      ProcessFileEffect(before, f, e.value);
      forall p | p in before && EndsWith(p, ".lrc")
        ensures p in ProcessFile(before, f, e).value
      {
        LrcNotSrt(p, f);
      }
    }
  }

  lemma LrcNotSrt(p: string, f: string)
    requires EndsWith(p, ".lrc")
    ensures Protected(p) && p != SrtSibling(f)
  {
    SrtIsProtected(f);
    if p == SrtSibling(f) {
      EndsWithDiffer(p, ".lrc", ".srt");
    }
  }

  lemma CollectedAreAudio(walk: seq<Entry>, k: nat)
    requires k < |Collect(walk)|
    ensures IsAudioName(PosixPath.Basename(Collect(walk)[k]))
  {
    var e := AudioEntries(walk)[k];
    CollectAt(walk, k);
    AudioEntriesMembers(walk);
    assert e in AudioEntries(walk);
    JoinBasename(e.root, e.name);
  }

  /** The name of a joined path ends like the joined name, for the endings `IsAudioName` checks. */
  lemma JoinBasename(root: string, name: string)
    requires IsAudioName(name)
    ensures IsAudioName(PosixPath.Basename(PosixPath.Join(root, name)))
  {
    var j := PosixPath.Join(root, name);
    NoSlashExts();
    if EndsWith(name, ".mp3") {
      assert EndsWith(j, ".mp3");
      EndsWithBasename(j, ".mp3");
    } else {
      assert EndsWith(j, ".wav");
      EndsWithBasename(j, ".wav");
    }
  }
}
