/** `main_faster-whisper.py`: the window's start check and the worker thread. The worker selects,
    below the chosen folder, the audio files that have no lyric next to them; for each it runs the
    transcriber inside a `temp` directory, converts the subtitle found there and moves the lyric next
    to the audio file; at the end it deletes `temp`. Each transcriber run is a given result (the files
    it wrote); its exit status is not checked by the worker. */
module GuiWorker {
  import opened Strings
  import opened Wrappers
  import opened PurePath
  import PosixPath
  import SrtToLrc

  type Disk = SrtToLrc.Disk

  /** `audio_extensions` */
  const AudioExtensions: set<string> := {".mp3", ".wav"}

  /** `temp_dir` */
  const TempDir: string := "temp"

  /** `f.suffix in audio_extensions` */
  predicate IsAudio(p: string) {
    Suffix(p) in AudioExtensions
  }

  /** The lyric path of an audio file: its parent, its stem, ".lrc". */
  function LyricFor(p: string): string {
    ParentPrefix(p) + Stem(p) + ".lrc"
  }

  /** An audio file has a name, so `with_suffix('.lrc')` does not raise and gives `LyricFor`. */
  lemma AudioLyric(p: string)
    requires IsAudio(p)
    ensures WithSuffix(p, ".lrc") == Some(LyricFor(p))
  {
    PosixPath.KnownExts(".lrc");
    assert ValidSuffix(".lrc");
  }

  /** The test of the selection comprehension: an audio suffix, and no file at the `.lrc` path. */
  predicate Selected(p: string, disk: Disk) {
    && IsAudio(p)
    && WithSuffix(p, ".lrc").Some?
    && WithSuffix(p, ".lrc").value !in disk
  }

  /** `audio_files`: the listing filtered by `Selected`, in listing order. The disk is the one the
      worker starts from: the selection is made once, before any file is processed. */
  function Select(listing: seq<string>, disk: Disk): (r: seq<string>)
    ensures |r| <= |listing|
  {
    Filter(p => Selected(p, disk), listing)
  }

  /** A listed path is selected exactly when it has an audio suffix and nothing is at its lyric
      path. */
  lemma SelectMembers(listing: seq<string>, disk: Disk)
    ensures forall p :: p in Select(listing, disk) <==> p in listing && IsAudio(p) && LyricFor(p) !in disk
  {
    FilterMembers(p => Selected(p, disk), listing);
    forall p | IsAudio(p)
      ensures WithSuffix(p, ".lrc") == Some(LyricFor(p))
    {
      AudioLyric(p);
    }
  }

  /** The selection keeps listing order. */
  lemma SelectInOrder(listing: seq<string>, disk: Disk)
    ensures IsSubsequence(Select(listing, disk), listing)
  {
    FilterInOrder(p => Selected(p, disk), listing);
  }

  /** Selecting again from the selection changes nothing. */
  lemma SelectIdempotent(listing: seq<string>, disk: Disk)
    ensures Select(Select(listing, disk), disk) == Select(listing, disk)
  {
    FilterIdempotent(p => Selected(p, disk), listing);
  }

  /** `temp_dir / (audio_file.stem + '.srt')` */
  function TempSrt(a: string): string {
    Child(TempDir, Stem(a) + ".srt")
  }

  /** `temp_dir / (audio_file.stem + '.lrc')` */
  function TempLrc(a: string): string {
    Child(TempDir, Stem(a) + ".lrc")
  }

  /** The paths `shutil.rmtree(temp_dir)` deletes. */
  predicate UnderTemp(p: string) {
    p == TempDir || StartsWith(p, TempDir + "/")
  }

  /** `shutil.move(src, dst)` for a file `src`: `dst` takes its content, `src` disappears. */
  function Move(disk: Disk, src: string, dst: string): (r: Disk)
    requires src in disk
    ensures dst in r && r[dst] == disk[src]
    ensures src != dst ==> src !in r
    ensures forall p :: p != src && p != dst ==> (p in r <==> p in disk) && (p in r ==> r[p] == disk[p])
  {
    if src == dst then disk else disk[dst := disk[src]] - {src}
  }

  /** One iteration of the worker loop as written: the transcriber's files appear, the subtitle is
      converted when it is where the worker expects it, and the worker then looks for the lyric at
      `temp/<stem>.lrc`. */
  function WorkerStepAsWritten(disk: Disk, a: string, engine: Disk): Disk {
    var d := disk + engine;
    if TempSrt(a) !in d then d
    else
      var c := SrtToLrc.ConvertFile(d, TempSrt(a)).value;
      if TempLrc(a) in c then Move(c, TempLrc(a), LyricFor(a)) else c
  }

  /** The same iteration, moving the lyric from where the converter actually writes it. */
  function WorkerStep(disk: Disk, a: string, engine: Disk): Disk {
    var d := disk + engine;
    if TempSrt(a) !in d then d
    else
      var lrc := SrtToLrc.LrcPath(TempSrt(a));
      var c := SrtToLrc.ConvertFile(d, TempSrt(a)).value;
      if lrc in c then Move(c, lrc, LyricFor(a)) else c
  }

  /** The temporary subtitle is "temp/" + stem followed by ".srt". */
  lemma TempSrtShape(a: string)
    ensures TempSrt(a) == (TempDir + "/" + Stem(a)) + ".srt"
    ensures TempLrc(a) == (TempDir + "/" + Stem(a)) + ".lrc"
    ensures PosixPath.Basename(TempDir + "/" + Stem(a)) == Stem(a)
  {
    PosixPath.AppendAssoc(TempDir + "/", Stem(a), ".srt");
    PosixPath.AppendAssoc(TempDir + "/", Stem(a), ".lrc");
    StemNoSlash(a);
    PrefixParts(TempDir + "/", Stem(a));
  }

  /** The converter writes the lyric where the worker looks for it exactly when the stem is more
      than dots. For a stem of dots only, `splitext` finds no extension in the temporary subtitle's
      name, and the lyric gets ".srt.lrc". */
  lemma TempLrcAgrees(a: string)
    ensures SrtToLrc.LrcPath(TempSrt(a)) == TempLrc(a) <==> !AllChar(Stem(a), '.')
  {
    var root := TempDir + "/" + Stem(a);
    TempSrtShape(a);
    PosixPath.KnownExts(".srt");
    PosixPath.SplitExtDotted(root, ".srt");
    if AllChar(Stem(a), '.') {
      assert |SrtToLrc.LrcPath(TempSrt(a))| == |TempLrc(a)| + 4;
    }
  }

  lemma UnderTempOf(rest: string)
    ensures UnderTemp(TempDir + "/" + rest)
    ensures (TempDir + "/" + rest)[4] == '/'
  {
    assert (TempDir + "/" + rest)[..5] == TempDir + "/";
  }

  /** A prefix at least as long as `pre` of a string starting with `pre`, extended by anything,
      still starts with `pre`. */
  lemma KeepPrefix(s: string, t: string, x: string, pre: string)
    requires StartsWith(s, pre)
    requires |pre| <= |t| <= |s| && t == s[..|t|]
    ensures StartsWith(t + x, pre)
  {
    assert (t + x)[..|pre|] == t[..|pre|] == s[..|pre|];
  }

  /** Both temporary files lie under `temp`. */
  lemma TempPaths(a: string)
    ensures UnderTemp(TempSrt(a)) && UnderTemp(SrtToLrc.LrcPath(TempSrt(a)))
  {
    var p := TempSrt(a);
    var root := PosixPath.SplitExt(p).root;
    UnderTempOf(Stem(a) + ".srt");
    assert |root| >= 5 by {
      PosixPath.SplitExtRoot(p);
    }
    assert root == p[..|root|];
    KeepPrefix(p, root, ".lrc", TempDir + "/");
  }

  lemma EndsWithAppend(x: string, e: string)
    ensures EndsWith(x + e, e)
  {
    assert (x + e)[|x|..] == e;
  }

  /** The lyric next to an audio file is never the temporary subtitle: one ends in ".lrc", the other
      in ".srt". */
  lemma LyricNotTempSrt(a: string)
    ensures LyricFor(a) != TempSrt(a)
  {
    EndsWithAppend(ParentPrefix(a) + Stem(a), ".lrc");
    EndsWithAppend(TempDir + "/", Stem(a) + ".srt");
    EndsWithAppend(Stem(a), ".srt");
    var l := LyricFor(a);
    var t := TempSrt(a);
    assert l[|l| - 1] == 'c';
    assert t[|t| - 1] == (Stem(a) + ".srt")[|Stem(a)| + 3] == 't';
  }

  /** For an all-dots stem the converter does not strip ".srt": it appends ".lrc" to the whole
      temporary subtitle path. */
  lemma DotStemLrc(a: string)
    requires AllChar(Stem(a), '.')
    ensures SrtToLrc.LrcPath(TempSrt(a)) == TempSrt(a) + ".lrc"
  {
    TempSrtShape(a);
    PosixPath.KnownExts(".srt");
    PosixPath.SplitExtDotted(TempDir + "/" + Stem(a), ".srt");
  }

  /** The temporary subtitle path ends in 't'. */
  lemma TempSrtLast(a: string)
    ensures |TempSrt(a)| > 0 && TempSrt(a)[|TempSrt(a)| - 1] == 't'
  {
    var st := Stem(a);
    var t := TempSrt(a);
    assert t == TempDir + "/" + (st + ".srt");
    assert t[|t| - 1] == (st + ".srt")[|st| + 3];
  }

  /** Parent prefix and an all-dots stem together end in '/' or '.', if they are not empty. */
  lemma DotHeadLast(a: string)
    requires AllChar(Stem(a), '.')
    ensures var head := ParentPrefix(a) + Stem(a);
      head == "" || head[|head| - 1] == '.' || head[|head| - 1] == '/'
  {
    var st := Stem(a);
    var head := ParentPrefix(a) + st;
    ParentPrefixForm(a);
    if st != "" {
      assert head[|head| - 1] == st[|st| - 1];
    }
  }

  /** The lyric next to an audio file whose stem is all dots is not where the converter leaves it:
      that path is the temporary subtitle followed by ".lrc", and the temporary subtitle ends in 't'
      where the lyric's parent and stem end in '/' or '.'. */
  lemma LyricNotMisplaced(a: string)
    requires AllChar(Stem(a), '.')
    ensures LyricFor(a) != SrtToLrc.LrcPath(TempSrt(a))
  {
    var head := ParentPrefix(a) + Stem(a);
    var t := TempSrt(a);
    DotStemLrc(a);
    TempSrtLast(a);
    DotHeadLast(a);
    assert head != t;
    AppendCancel(head, t, ".lrc");
  }

  /** As written, an audio file whose stem is all dots loses its lyric: with the subtitle in `temp`
      and nothing at `temp/<stem>.lrc` or next to the audio file beforehand, the step leaves no
      lyric next to the audio file, and the converted lyric stays in `temp`, which the worker
      deletes at the end. */
  lemma AsWrittenLosesLyric(disk: Disk, a: string, engine: Disk)
    requires AllChar(Stem(a), '.')
    requires TempSrt(a) in disk + engine
    requires TempLrc(a) !in disk + engine && LyricFor(a) !in disk + engine
    ensures LyricFor(a) !in WorkerStepAsWritten(disk, a, engine)
    ensures SrtToLrc.LrcPath(TempSrt(a)) in WorkerStepAsWritten(disk, a, engine)
    ensures UnderTemp(SrtToLrc.LrcPath(TempSrt(a)))
  {
    TempLrcAgrees(a);
    LyricNotTempSrt(a);
    LyricNotMisplaced(a);
    TempPaths(a);
  }

  /** A concrete audio file with an all-dots stem: "music/..mp3" has suffix ".mp3" and stem ".". */
  lemma DotStemExample()
    ensures IsAudio("music/..mp3") && Stem("music/..mp3") == "." && AllChar(Stem("music/..mp3"), '.')
  {
    var n := "..mp3";
    assert !HasChar(n, '/') by {
      forall j | 0 <= j < 5
        ensures n[j] != '/'
      {
      }
    }
    PrefixParts("music/", n);
    assert "music/" + n == "music/..mp3";
    PosixPath.RFindIs(n, '.', 1);
    assert SuffixDot(n) == 1;
    assert n[1..] == ".mp3" && n[..1] == ".";
  }

  /** With the correction, the lyric lands next to the audio file and holds the converted subtitle. */
  lemma WorkerStepDelivers(disk: Disk, a: string, engine: Disk)
    requires TempSrt(a) in disk + engine
    ensures var r := WorkerStep(disk, a, engine);
      LyricFor(a) in r && r[LyricFor(a)] == SrtToLrc.Convert((disk + engine)[TempSrt(a)])
  {
    var srt := TempSrt(a);
    assert SrtToLrc.LrcPath(srt) != srt by {
      TempPaths(a);
      SrtToLrc.LrcPathDir(srt);
      assert |SrtToLrc.LrcPath(srt)| >= 4;
      LrcEnds(srt);
      SrtEnds(a);
    }
  }

  lemma LrcEnds(p: string)
    ensures EndsWith(SrtToLrc.LrcPath(p), ".lrc")
  {
  }

  lemma SrtEnds(a: string)
    ensures EndsWith(TempSrt(a), ".srt")
  {
    TempSrtShape(a);
  }

  /** A worker step deletes only paths under `temp`. */
  lemma WorkerStepKeeps(disk: Disk, a: string, engine: Disk)
    ensures forall p :: p in disk && !UnderTemp(p) ==> p in WorkerStep(disk, a, engine)
  {
    TempPaths(a);
    var d := disk + engine;
    var srt := TempSrt(a);
    forall p | p in disk && !UnderTemp(p)
      ensures p in WorkerStep(disk, a, engine)
    {
      assert p in d;
      if srt in d {
        var lrc := SrtToLrc.LrcPath(srt);
        var c := SrtToLrc.ConvertFile(d, srt).value;
        assert p in c;
        if lrc in c {
          assert p in Move(c, lrc, LyricFor(a));
        }
      }
    }
  }

  /** The corrected step against the tree the transcriber left (`d`): outside `temp` it creates,
      deletes or changes no file but the audio file's lyric, and that one only when the subtitle
      was in `temp` and the converter wrote a lyric from it. */
  lemma WorkerStepFrame(disk: Disk, a: string, engine: Disk)
    ensures var d := disk + engine;
      var moved := TempSrt(a) in d && SrtToLrc.LrcPath(TempSrt(a)) in SrtToLrc.ConvertFile(d, TempSrt(a)).value;
      forall p :: !UnderTemp(p) && (p != LyricFor(a) || !moved) ==>
        (p in WorkerStep(disk, a, engine) <==> p in d) && (p in d ==> WorkerStep(disk, a, engine)[p] == d[p])
  {
    TempPaths(a);
    var d := disk + engine;
    var srt := TempSrt(a);
    var r := WorkerStep(disk, a, engine);
    var moved := srt in d && SrtToLrc.LrcPath(srt) in SrtToLrc.ConvertFile(d, srt).value;
    forall p | !UnderTemp(p) && (p != LyricFor(a) || !moved)
      ensures (p in r <==> p in d) && (p in d ==> r[p] == d[p])
    {
      if srt in d {
        var lrc := SrtToLrc.LrcPath(srt);
        var c := SrtToLrc.ConvertFile(d, srt).value;
        assert (p in c <==> p in d) && (p in d ==> c[p] == d[p]);
        if lrc in c {
          assert p != LyricFor(a);
          assert (p in Move(c, lrc, LyricFor(a)) <==> p in c);
        }
      }
    }
  }

  /** The same frame for the step as written, where the lyric moves only when it is found at
      `temp/<stem>.lrc`. */
  lemma AsWrittenFrame(disk: Disk, a: string, engine: Disk)
    ensures var d := disk + engine;
      var moved := TempSrt(a) in d && TempLrc(a) in SrtToLrc.ConvertFile(d, TempSrt(a)).value;
      forall p :: !UnderTemp(p) && (p != LyricFor(a) || !moved) ==>
        (p in WorkerStepAsWritten(disk, a, engine) <==> p in d) && (p in d ==> WorkerStepAsWritten(disk, a, engine)[p] == d[p])
  {
    TempPaths(a);
    UnderTempOf(Stem(a) + ".lrc");
    assert UnderTemp(TempLrc(a));
    var d := disk + engine;
    var srt := TempSrt(a);
    var r := WorkerStepAsWritten(disk, a, engine);
    var moved := srt in d && TempLrc(a) in SrtToLrc.ConvertFile(d, srt).value;
    forall p | !UnderTemp(p) && (p != LyricFor(a) || !moved)
      ensures (p in r <==> p in d) && (p in d ==> r[p] == d[p])
    {
      if srt in d {
        var c := SrtToLrc.ConvertFile(d, srt).value;
        assert (p in c <==> p in d) && (p in d ==> c[p] == d[p]);
        if TempLrc(a) in c {
          assert p != LyricFor(a);
          assert (p in Move(c, TempLrc(a), LyricFor(a)) <==> p in c);
        }
      }
    }
  }

  /** The files of a disk outside `temp`. */
  function Kept(disk: Disk): set<string> {
    set p | p in disk && !UnderTemp(p)
  }

  /** `shutil.rmtree(temp_dir)`: nothing under `temp` is left, and every other file stays as it
      was. */
  function RemoveTemp(disk: Disk): (r: Disk)
    ensures forall p :: p in r ==> !UnderTemp(p)
    ensures forall p :: p in r ==> p in disk && r[p] == disk[p]
    ensures Kept(disk) <= r.Keys
  {
    map p | p in disk && !UnderTemp(p) :: disk[p]
  }

  /** Whatever was written under `temp` leaves no trace once `temp` is removed. */
  lemma RemoveTempForgets(disk: Disk, written: Disk)
    requires forall p :: p in written ==> UnderTemp(p)
    ensures RemoveTemp(disk + written) == RemoveTemp(disk)
  {
    var a := RemoveTemp(disk + written);
    var b := RemoveTemp(disk);
    forall p | p in a
      ensures p in b && a[p] == b[p]
    {
      assert p !in written;
    }
    assert a.Keys == b.Keys;
  }

  /** `Worker.run` with the corrected step. `listing` is what `rglob('*')` yields below the folder;
      the `k`-th transcriber run leaves `engine(k)`. At the end nothing is left under `temp`, every
      file outside `temp` is still there, and every selected file whose transcriber run left the
      subtitle where the worker expects it has its lyric next to it (when that is outside `temp`). */
  method RunWorker(disk: Disk, listing: seq<string>, engine: nat -> Disk) returns (out: Disk)
    ensures var files := Select(listing, disk);
      var srts := MapSeq(TempSrt, files);
      var lrcs := MapSeq(LyricFor, files);
      && (forall p :: p in out ==> !UnderTemp(p))
      && Kept(disk) <= out.Keys
      && (forall k :: 0 <= k < |files| && srts[k] in engine(k) && !UnderTemp(lrcs[k]) ==> lrcs[k] in out)
  {
    var files := Select(listing, disk);
    var srts := MapSeq(TempSrt, files);
    var lrcs := MapSeq(LyricFor, files);
    out := disk;
    var i := 0;
    while i < |files|
      invariant i <= |files|
      invariant Kept(disk) <= Kept(out)
      invariant forall k :: 0 <= k < i && srts[k] in engine(k) && !UnderTemp(lrcs[k]) ==> lrcs[k] in Kept(out)
    {
      var next := WorkerStep(out, files[i], engine(i));
      StepKept(out, files[i], engine(i));
      MapSeqAt(TempSrt, files, i);
      MapSeqAt(LyricFor, files, i);
      KeepDelivered(out, next, srts, lrcs, engine, i);
      out := next;
      i := i + 1;
    }
    out := RemoveTemp(out);
  }

  /** A corrected step keeps every file outside `temp`, and adds the file's lyric when the subtitle
      was there. */
  lemma StepKept(disk: Disk, a: string, engine: Disk)
    ensures Kept(disk) <= Kept(WorkerStep(disk, a, engine))
    ensures TempSrt(a) in engine && !UnderTemp(LyricFor(a)) ==> LyricFor(a) in Kept(WorkerStep(disk, a, engine))
  {
    WorkerStepKeeps(disk, a, engine);
    if TempSrt(a) in engine {
      WorkerStepDelivers(disk, a, engine);
    }
  }

  lemma KeepDelivered(before: Disk, after: Disk, srts: seq<string>, lrcs: seq<string>, engine: nat -> Disk, n: nat)
    requires n < |srts| == |lrcs|
    requires Kept(before) <= Kept(after)
    requires forall k :: 0 <= k < n && srts[k] in engine(k) && !UnderTemp(lrcs[k]) ==> lrcs[k] in Kept(before)
    requires srts[n] in engine(n) && !UnderTemp(lrcs[n]) ==> lrcs[n] in Kept(after)
    ensures forall k :: 0 <= k < n + 1 && srts[k] in engine(k) && !UnderTemp(lrcs[k]) ==> lrcs[k] in Kept(after)
  {
    forall k | 0 <= k < n + 1 && srts[k] in engine(k) && !UnderTemp(lrcs[k])
      ensures lrcs[k] in Kept(after)
    {
      if k < n {
        assert lrcs[k] in Kept(before);
      }
    }
  }

  /** Away from all-dots stems the step as written and the corrected step agree. */
  lemma AsWrittenAgrees(disk: Disk, a: string, engine: Disk)
    requires !AllChar(Stem(a), '.')
    ensures WorkerStepAsWritten(disk, a, engine) == WorkerStep(disk, a, engine)
  {
    TempLrcAgrees(a);
  }

  /** The step as written also deletes nothing outside `temp`, and delivers the lyric of a file
      whose stem is more than dots. */
  lemma AsWrittenStepKept(disk: Disk, a: string, engine: Disk)
    ensures Kept(disk) <= Kept(WorkerStepAsWritten(disk, a, engine))
    ensures TempSrt(a) in engine && !UnderTemp(LyricFor(a)) && !AllChar(Stem(a), '.') ==>
      LyricFor(a) in Kept(WorkerStepAsWritten(disk, a, engine))
  {
    if AllChar(Stem(a), '.') {
      AsWrittenKeeps(disk, a, engine);
    } else {
      AsWrittenAgrees(disk, a, engine);
      StepKept(disk, a, engine);
    }
  }

  /** The step as written deletes nothing outside `temp`, whatever the stem. */
  lemma AsWrittenKeeps(disk: Disk, a: string, engine: Disk)
    ensures forall p :: p in disk && !UnderTemp(p) ==> p in WorkerStepAsWritten(disk, a, engine)
  {
    TempPaths(a);
    UnderTempOf(Stem(a) + ".lrc");
    assert UnderTemp(TempLrc(a));
    var d := disk + engine;
    var srt := TempSrt(a);
    forall p | p in disk && !UnderTemp(p)
      ensures p in WorkerStepAsWritten(disk, a, engine)
    {
      assert p in d;
      if srt in d {
        var c := SrtToLrc.ConvertFile(d, srt).value;
        assert p in c;
        if TempLrc(a) in c {
          assert p in Move(c, TempLrc(a), LyricFor(a));
        }
      }
    }
  }

  /** `Worker.run` as written. Everything `RunWorker` promises still holds, except that the lyric is
      promised only for files whose stem is more than dots. */
  method RunWorkerAsWritten(disk: Disk, listing: seq<string>, engine: nat -> Disk) returns (out: Disk)
    ensures var files := Select(listing, disk);
      var srts := MapSeq(TempSrt, files);
      var lrcs := MapSeq(LyricFor, files);
      && (forall p :: p in out ==> !UnderTemp(p))
      && Kept(disk) <= out.Keys
      && (forall k :: 0 <= k < |files| && srts[k] in engine(k) && !UnderTemp(lrcs[k]) && !AllChar(Stem(files[k]), '.') ==>
            lrcs[k] in out)
  {
    var files := Select(listing, disk);
    var srts := MapSeq(TempSrt, files);
    var lrcs := MapSeq(LyricFor, files);
    out := disk;
    var i := 0;
    while i < |files|
      invariant i <= |files|
      invariant Kept(disk) <= Kept(out)
      invariant forall k :: 0 <= k < i && srts[k] in engine(k) && !UnderTemp(lrcs[k]) && !AllChar(Stem(files[k]), '.') ==>
        lrcs[k] in Kept(out)
    {
      var next := WorkerStepAsWritten(out, files[i], engine(i));
      AsWrittenStepKept(out, files[i], engine(i));
      MapSeqAt(TempSrt, files, i);
      MapSeqAt(LyricFor, files, i);
      KeepDeliveredAsWritten(out, next, files, srts, lrcs, engine, i);
      out := next;
      i := i + 1;
    }
    out := RemoveTemp(out);
  }

  lemma KeepDeliveredAsWritten(before: Disk, after: Disk, files: seq<string>, srts: seq<string>, lrcs: seq<string>, engine: nat -> Disk, n: nat)
    requires n < |files| == |srts| == |lrcs|
    requires Kept(before) <= Kept(after)
    requires forall k :: 0 <= k < n && srts[k] in engine(k) && !UnderTemp(lrcs[k]) && !AllChar(Stem(files[k]), '.') ==>
      lrcs[k] in Kept(before)
    requires srts[n] in engine(n) && !UnderTemp(lrcs[n]) && !AllChar(Stem(files[n]), '.') ==> lrcs[n] in Kept(after)
    ensures forall k :: 0 <= k < n + 1 && srts[k] in engine(k) && !UnderTemp(lrcs[k]) && !AllChar(Stem(files[k]), '.') ==>
      lrcs[k] in Kept(after)
  {
    forall k | 0 <= k < n + 1 && srts[k] in engine(k) && !UnderTemp(lrcs[k]) && !AllChar(Stem(files[k]), '.')
      ensures lrcs[k] in Kept(after)
    {
      if k < n {
        assert lrcs[k] in Kept(before);
      }
    }
  }

  /** What pressing "start" does: refuse with a warning when the folder or the language field is
      empty; otherwise start a worker with the three values as entered. */
  datatype Start = Refused | Started(folder: string, model: string, language: string)

  function StartProcessing(folder: string, model: string, language: string): (r: Start)
    ensures r.Refused? <==> folder == "" || language == ""
    ensures r.Started? ==> r == Started(folder, model, language)
  {
    if folder == "" || language == "" then Refused else Started(folder, model, language)
  }

  /** The model field takes no part in the decision: whether start is refused depends on the folder
      and the language alone. */
  lemma StartIgnoresModel(folder: string, model: string, other: string, language: string)
    ensures StartProcessing(folder, model, language).Refused? <==> StartProcessing(folder, other, language).Refused?
  {
  }

  /** The check is on emptiness only: a blank folder and a blank language are accepted, and so is
      any model name. */
  lemma StartAcceptsBlanks(model: string)
    ensures StartProcessing(" ", model, " ") == Started(" ", model, " ")
  {
  }
}
