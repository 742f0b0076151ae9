# Whisper auto-LRC: a Dafny model of the subtitle-to-lyric core

The program turns folders of songs into synchronised lyric files (`.lrc`). An external speech
recogniser (Whisper) transcribes each audio file into a subtitle file (`.srt`). The program's own
logic then:

- reads the subtitle blocks with one regular expression;
- writes one lyric line `[HH:MM:SS.mmm] text` per block into a `.lrc` file next to the subtitle;
- decides which audio files to process and where the subtitle and the lyric lie;
- moves the lyric next to the song and deletes the transcriber's left-overs.

The project models three scripts:

- `srt_to_lrc.py`, the converter;
- `main.py`, the command-line batch;
- `main_faster-whisper.py`, the Qt window and its worker thread.

It proves what these scripts guarantee, and what they do not.

Modules, in dependency order:

| file | module | models |
|---|---|---|
| `wrappers.dfy` | `Wrappers` | `Option`, used where Python raises or the script aborts |
| `strings.dfy` | `Strings` | string and sequence helpers (`rfind`, `replace`, `join`, `split`, `in`, `endswith`, list comprehensions as `Filter`/`MapSeq`) |
| `posix_path.dfy` | `PosixPath` | `os.path.basename`, `dirname`, `join`, `splitext` (POSIX flavour) |
| `pathlib.dfy` | `PurePath` | `PurePosixPath.name`, `suffix`, `stem`, `with_suffix`, `/` |
| `srt_pattern.dfy` | `SrtPattern` | the subtitle pattern and `re.findall` over it, as an explicit scanner |
| `srt_to_lrc.dfy` | `SrtToLrc` | the conversion, the lyric path, the script's effect on a file tree |
| `main_cli.dfy` | `MainScript` | collection, skip rule, conversion call and cleanup of `main.py` |
| `gui_worker.dfy` | `GuiWorker` | start check, selection, temporary files, move and `rmtree` of the GUI worker |

Conventions used throughout:

- **Files.** A file tree is a `map<string, string>` from path to text.
- **Transcriber runs.** A run is a given result: the files it writes. In `main.py` a run can also
  fail (`None`), because `check=True` makes a failure abort the script.
- **Strings.** Text is a sequence of characters after Python's universal-newline reading, which
  turns both `\r\n` and a lone `\r` into `\n`.

**Output format.** Some descriptions of the program give the lyric line as `[MM:SS.cc]text`, with
multi-line texts joined by spaces. The code writes something else, and the model follows the code:

- `srt_to_lrc.py:17-18` keeps the whole start timecode `HH:MM:SS,mmm`, with its comma replaced by a
  dot;
- a space follows the closing bracket;
- the text is copied verbatim, newlines included;
- the lines are joined by single newlines, with none after the last (`srt_to_lrc.py:21-22`).

## Model

| member | source | states |
|---|---|---|
| SrtPattern.DigitRun | srt_to_lrc.py:11 | `(\d+)` takes the maximal run of digits: the run is all digits and is followed by a non-digit or the end of the text |
| SrtPattern.FindBlank | srt_to_lrc.py:11 | the lazy `(.*?)\n\n` stops at the first blank line at or after the text start: that position holds two newlines and none lies before it |
| SrtPattern.MatchAt | srt_to_lrc.py:11 | a match attempt at `i` either fails or covers a non-empty span starting at `i` and ending inside the text |
| SrtPattern.MatchAtSound | srt_to_lrc.py:11 | every match spans exactly the rendering of a valid block, i.e. digits, newline, two well-formed timecodes around " --> ", newline, a text without a blank line, blank line; its four groups are that block's parts |
| SrtPattern.MatchRendered | srt_to_lrc.py:11 | conversely, wherever a valid block is written out the pattern matches there, with exactly that block's parts as groups and the block's end as match end |
| SrtPattern.FindAll | srt_to_lrc.py:12 | `re.findall` as a scan: at each position the pattern is tried, and the scan resumes at the end of a match or one character further on a failure; what it reports is characterised by FindAllMatches, FindAllComplete, FindAllOrdered and FindAllSound |
| SrtPattern.FindAllMatches | srt_to_lrc.py:12 | everything `re.findall` reports is the pattern's own match at the position it starts from (its converse is FindAllComplete) |
| SrtPattern.FindAllComplete | srt_to_lrc.py:12 | nothing is missed: a position that no reported match covers is one where the pattern fails, so a malformed block costs only the text it occupies |
| SrtPattern.FindAllOrdered | srt_to_lrc.py:12 | the matches `re.findall` reports lie inside the text, are non-empty, come in text order and do not overlap |
| SrtPattern.FindAllSound | srt_to_lrc.py:11-12 | every block found from the start of the text is valid and sits, rendered, at its match span |
| SrtPattern.NoBlankNoMatch | srt_to_lrc.py:11-12 | where no blank line follows, nothing is found |
| SrtPattern.NoLateBlank | srt_to_lrc.py:11-12 | a match needs a blank line at least 31 characters past its start, so with none from some point on nothing is found from 31 characters before it |
| SrtPattern.SkipJunk | srt_to_lrc.py:12 | leading text without a newline that does not end in a digit (a byte-order mark, say) is skipped: the scan from the start finds what a scan from after it finds |
| SrtPattern.ParseRendered | srt_to_lrc.py:11-12 | round trip: a run of valid blocks written out, after any prefix and before a tail without a blank line, is read back as exactly those blocks in order |
| SrtPattern.ParseWithJunk | srt_to_lrc.py:11-12 | round trip from the start of the file: valid blocks behind such leading text and before such a tail are read back exactly |
| SrtToLrc.LrcLine | srt_to_lrc.py:17-18 | the lyric line of one block: the bracketed stamp, a space and the text; characterised by LineRoundTrip, LineNewlines and LineIgnoresEnd |
| SrtToLrc.LrcStamp | srt_to_lrc.py:17 | the stamp keeps the timecode's length and holds no comma |
| SrtToLrc.StampRoundTrip | srt_to_lrc.py:17 | a stamp made from a timecode has the shape `DD:DD:DD.DDD`, and turning the dot back into a comma gives the timecode again |
| SrtToLrc.ParseLrcLine | srt_to_lrc.py:18 | what a lyric line is read back into always has a well-formed start timecode |
| SrtToLrc.LineRoundTrip | srt_to_lrc.py:17-18 | a lyric line holds exactly its block's start timecode and text: reading the line back gives both |
| SrtToLrc.LineNewlines | srt_to_lrc.py:18 | a lyric line contains a newline if and only if its block's text does |
| SrtToLrc.LineIgnoresEnd | srt_to_lrc.py:17-18 | the end timecode never reaches the lyric: two blocks that differ only in it give the same line |
| SrtToLrc.Lines | srt_to_lrc.py:16-18 | one lyric line per block, as many lines as blocks; what each line holds is LinesRoundTrip |
| SrtToLrc.LinesRoundTrip | srt_to_lrc.py:16-18 | the `k`-th lyric line reads back as exactly the `k`-th block's start timecode and text |
| SrtToLrc.Convert | srt_to_lrc.py:15-22 | the lyric text of a subtitle text; characterised by ConvertText, ConvertEmpty, ConvertOneLinePerBlock, ConvertedTexts, ConvertRendered and UnfinishedLastBlock |
| SrtToLrc.ConvertText | srt_to_lrc.py:15-22 | the script's loop (a newline after every line except the last) computes exactly the lines of the blocks found, joined by newlines |
| SrtToLrc.ConvertEmpty | srt_to_lrc.py:15-22 | the lyric text is empty if and only if the pattern finds nothing |
| SrtToLrc.ConvertOneLinePerBlock | srt_to_lrc.py:15-22 | when no subtitle text spans several lines, splitting the lyric text at newlines gives back one line per block found, in order |
| SrtToLrc.ConvertedTexts | srt_to_lrc.py:11-18 | every text that reaches the lyric comes from a valid block that occurs, rendered, in the input |
| SrtToLrc.ConvertRendered | srt_to_lrc.py:11-22 | a subtitle file of valid blocks, followed by a tail with no blank line, converts to exactly the lines of those blocks |
| SrtToLrc.UnfinishedNoMatch | srt_to_lrc.py:11-12 | a block written out with one newline after its text holds no match, whatever its text, an empty one included |
| SrtToLrc.UnfinishedLastBlock | srt_to_lrc.py:11-22 | a last block that lacks its closing blank line yields no lyric line, whatever its text, and the blocks before it convert as usual |
| PosixPath.SplitExt | srt_to_lrc.py:25 | `splitext` cuts the path into a root and an extension that together give the path back |
| PosixPath.SplitExtDotted | srt_to_lrc.py:25 | appending an extension to a root whose last component is more than dots splits back into that root and extension; otherwise nothing is split off |
| SrtToLrc.LrcPath | srt_to_lrc.py:25 | the lyric path of a subtitle path: its `splitext` root with ".lrc"; characterised by LrcPathDir and LrcPathExt |
| SrtToLrc.LrcPathDir | srt_to_lrc.py:25 | the lyric is written in the subtitle's directory |
| SrtToLrc.LrcPathExt | srt_to_lrc.py:25 | when the subtitle path has an extension, the lyric path is its root with ".lrc" as extension |
| SrtToLrc.ConvertFile | srt_to_lrc.py:5-30 | the script fails exactly when the subtitle file is missing; otherwise the lyric path holds the converted text and the subtitle is gone (unless the two paths coincide), and no other file changes |
| MainScript.IsAudioName | main.py:19 | the test `file.endswith((".mp3", ".wav"))`, case-sensitive; characterised by AudioEntriesMembers and StemNotDots |
| MainScript.AudioEntries | main.py:17-19 | the walked files that pass the audio test, in walk order; characterised by AudioEntriesMembers and AudioEntriesInOrder |
| MainScript.EntryPath | main.py:20 | `os.path.join(root, file)` for one walked file; characterised by CollectAt and JoinParts |
| PosixPath.Join | main.py:20 | `os.path.join` of two parts: an absolute second part replaces the first, and a separator is put between them only when the first does not end in one; characterised by JoinParts |
| MainScript.Collect | main.py:16-20 | the list of audio files has one path per audio entry of the walk, so it is no longer than the walk |
| MainScript.AudioEntriesMembers | main.py:17-20 | a walked file is collected if and only if its name ends in ".mp3" or ".wav" |
| MainScript.AudioEntriesInOrder | main.py:17-20 | the collected files keep walk order |
| MainScript.CollectAt | main.py:20 | the `k`-th collected path joins the `k`-th audio entry's directory and name |
| MainScript.CollectedAreAudio | main.py:19-20 | the base name of every collected path ends in ".mp3" or ".wav" |
| MainScript.AudioStem | main.py:31 | the stem of an audio file's base name; characterised by StemNoSlash, StemNotDots and SiblingParts |
| MainScript.StemNoSlash | main.py:31 | the stem holds no separator |
| MainScript.Sibling | main.py:31 | a file next to the audio file, named by its stem and an extension; characterised by SiblingParts |
| MainScript.LrcSibling | main.py:31 | the lyric path the skip rule checks: the ".lrc" sibling |
| MainScript.SrtSibling | main.py:39 | the subtitle path the script converts: the ".srt" sibling |
| PosixPath.Basename | main.py:31 | `os.path.basename`: the part after the last separator, which holds no separator and ends the path |
| PosixPath.Dirname | main.py:31 | `os.path.dirname`: the head up to the last separator with trailing separators removed unless it is all separators; characterised by DirnameForm and JoinParts |
| PosixPath.JoinParts | main.py:31 | joining a directory in `dirname` form with a plain name gives a path whose `dirname` is that directory and whose `basename` is that name |
| MainScript.SiblingParts | main.py:31 | the lyric and subtitle siblings lie in the audio file's directory and are named by its stem and the new extension |
| MainScript.StemNotDots | main.py:31 | the stem of an audio file name is never empty nor all dots |
| MainScript.SrtConvertsToSibling | main.py:39-41 | the converter writes the lyric of the subtitle next to an audio file exactly at the lyric path the skip rule checks |
| MainScript.SharedLyric | main.py:31-33 | "song.mp3" and "song.wav" in one directory share the lyric "song.lrc", so whichever comes second is skipped |
| MainScript.IsDebrisName | main.py:46 | the name test of the cleanup; characterised by DebrisSparesOwnFiles and DebrisAnywhereInName |
| MainScript.Doomed | main.py:45-47 | a path the cleanup deletes: in the audio file's directory, named like debris of the stem; Cleanup deletes every such path of the tree and only those, and ProtectedNotDoomed shows none ends in an audio, lyric or subtitle extension |
| MainScript.Cleanup | main.py:44-47 | every debris file of the audio file's directory (name containing the stem and ending in ".json", ".tsv", ".txt" or ".vtt") is deleted; the cleanup deletes nothing else, so audio files, lyrics, subtitles and files of other directories stay, and every file kept keeps its content |
| MainScript.CleanupIdempotent | main.py:44-47 | a second cleanup for the same audio file deletes nothing more |
| MainScript.ProtectedSpared | main.py:44-47 | no path ending in ".mp3", ".wav", ".lrc" or ".srt" is ever marked for deletion |
| MainScript.DebrisSparesOwnFiles | main.py:46 | a name the cleanup matches never ends in ".mp3", ".wav", ".lrc" or ".srt" |
| MainScript.ProtectedNotDoomed | main.py:44-47 | the cleanup never deletes a path ending in ".mp3", ".wav", ".lrc" or ".srt" |
| MainScript.DebrisAnywhereInName | main.py:46 | the stem is matched anywhere in the name, so "my song.txt" is debris of "song" and "data.txt" is debris of "a" (and Cleanup deletes what is debris) |
| MainScript.ProcessFile | main.py:30-47 | a file with a lyric next to it is skipped and nothing changes; otherwise a failed transcriber run, and only that, aborts the script |
| MainScript.ProcessFileEffect | main.py:35-47 | after one file, against the tree the transcriber left: a subtitle next to the file becomes its lyric with the converted text; without a subtitle nothing is converted and the lyric next to it is whatever the transcriber left; no other file is created or changed; every audio file and lyric stays; every matching debris file in its directory goes, and nothing else the transcriber left but the subtitle goes |
| MainScript.BatchStep | main.py:26-47 | one file of the batch keeps every lyric already present, and adds its own when the transcriber left a subtitle; a step with a failed run that went on was a skip, so the file's lyric is there |
| MainScript.RunBatch | main.py:16-47 | the batch handles files in order until a transcriber failure; no lyric on disk is lost; every handled file whose run left a subtitle ends with its lyric; every handled file whose run would have failed was skipped, so its lyric is there; when the batch stopped early, the failed file has no lyric |
| PurePath.Name | main_faster-whisper.py:25 | `p.name`, the last component, from which `suffix` and `stem` are taken; it holds no separator and ends the path |
| PurePath.Suffix | main_faster-whisper.py:25 | `suffix` is empty or a dot followed by at least one non-dot, and the name ends with it |
| PurePath.Stem | main_faster-whisper.py:32 | stem followed by suffix gives the name back, and a non-empty name has a non-empty stem |
| PurePath.WithSuffix | main_faster-whisper.py:25 | `with_suffix` raises exactly for an invalid suffix or an empty name |
| PurePath.WithSuffixParts | main_faster-whisper.py:39 | `with_suffix('.lrc')` keeps the parent and the stem and sets the suffix to ".lrc" |
| GuiWorker.AudioLyric | main_faster-whisper.py:25 | for a path with an audio suffix, `with_suffix('.lrc')` succeeds and gives parent, stem, ".lrc" |
| GuiWorker.Selected | main_faster-whisper.py:25 | the comprehension's test; characterised by SelectMembers and AudioLyric |
| GuiWorker.IsAudio | main_faster-whisper.py:25 | `f.suffix in audio_extensions`; characterised by PurePath.Suffix and SelectMembers |
| GuiWorker.LyricFor | main_faster-whisper.py:39 | the destination `audio_file.with_suffix('.lrc')`: AudioLyric shows `with_suffix` returns it for every audio file, and WithSuffixParts that it keeps the parent and the stem |
| GuiWorker.Select | main_faster-whisper.py:25 | the selection is no longer than the listing |
| GuiWorker.SelectMembers | main_faster-whisper.py:25 | a listed path is selected if and only if its suffix is ".mp3" or ".wav" and nothing lies at its lyric path |
| GuiWorker.SelectInOrder | main_faster-whisper.py:25 | the selection keeps listing order |
| GuiWorker.SelectIdempotent | main_faster-whisper.py:25 | selecting again from the selection changes nothing |
| PurePath.Child | main_faster-whisper.py:32 | `temp_dir / name` for a one-component name; characterised by TempSrtShape and PrefixParts |
| GuiWorker.TempSrt | main_faster-whisper.py:32 | the subtitle path the worker expects; characterised by TempSrtShape and TempPaths |
| GuiWorker.TempLrc | main_faster-whisper.py:37 | the lyric path the worker looks at; characterised by TempSrtShape and TempLrcAgrees |
| GuiWorker.UnderTemp | main_faster-whisper.py:41 | the paths `rmtree` deletes; characterised by TempPaths, RemoveTemp and RemoveTempForgets |
| GuiWorker.TempSrtShape | main_faster-whisper.py:32-37 | the temporary subtitle and lyric are "temp/", the stem, and ".srt" or ".lrc" |
| GuiWorker.TempPaths | main_faster-whisper.py:32-37 | the temporary subtitle and the lyric the converter makes from it lie under `temp` |
| GuiWorker.TempLrcAgrees | main_faster-whisper.py:32-37 | the converter writes the lyric where the worker looks for it if and only if the stem is more than dots |
| GuiWorker.Move | main_faster-whisper.py:39 | the destination takes the source's content, the source disappears, nothing else changes |
| GuiWorker.DotStemExample | main_faster-whisper.py:25 | "music/..mp3" is selected as audio and has the all-dots stem "." |
| GuiWorker.WorkerStepAsWritten | main_faster-whisper.py:32-39 | one iteration of the loop as written; characterised by AsWrittenLosesLyric, AsWrittenAgrees, AsWrittenKeeps and AsWrittenStepKept |
| GuiWorker.WorkerStep | main_faster-whisper.py:32-39 | the same iteration with the lyric taken from where the converter writes it; characterised by WorkerStepDelivers, WorkerStepKeeps and StepKept |
| GuiWorker.LyricNotMisplaced | main_faster-whisper.py:35-39 | for an all-dots stem, the converter's lyric is never at the audio file's lyric path |
| GuiWorker.AsWrittenLosesLyric | main_faster-whisper.py:35-39 | as written, for an all-dots stem the step leaves no lyric next to the audio file, and the converted lyric stays under `temp` |
| GuiWorker.WorkerStepDelivers | main_faster-whisper.py:35-39 | corrected step: when the subtitle is in `temp`, the lyric next to the audio file holds the converted subtitle |
| GuiWorker.WorkerStepKeeps | main_faster-whisper.py:32-39 | a step deletes nothing outside `temp` |
| GuiWorker.StepKept | main_faster-whisper.py:28-39 | a corrected step keeps every file outside `temp` and adds the file's lyric when its subtitle was written |
| GuiWorker.AsWrittenAgrees | main_faster-whisper.py:32-39 | when the stem is more than dots, the step as written and the corrected step give the same file tree |
| GuiWorker.AsWrittenKeeps | main_faster-whisper.py:32-39 | the step as written deletes nothing outside `temp`, all-dots stems included |
| GuiWorker.WorkerStepFrame | main_faster-whisper.py:32-39 | outside `temp` the corrected step creates, deletes or changes no file but the audio file's lyric, and that one only when the subtitle was in `temp` and the converter wrote a lyric from it |
| GuiWorker.AsWrittenFrame | main_faster-whisper.py:32-39 | the same frame for the step as written: outside `temp` only the audio file's lyric can change, and only when the subtitle was in `temp` and a lyric is found at `temp/<stem>.lrc` (the checks at lines 35 and 38) |
| GuiWorker.AsWrittenStepKept | main_faster-whisper.py:28-39 | the step as written keeps every file outside `temp`, and adds the file's lyric when its subtitle was written and its stem is more than dots |
| GuiWorker.RemoveTemp | main_faster-whisper.py:41 | after `rmtree` nothing lies under `temp`; every file outside `temp` is still there, and every file left keeps its content |
| GuiWorker.RemoveTempForgets | main_faster-whisper.py:41 | whatever was written under `temp` leaves no trace after `rmtree`: the result is the one without it |
| GuiWorker.RunWorker | main_faster-whisper.py:20-41 | corrected worker: after it nothing is left under `temp`, every file outside it survives, and every selected file whose run wrote its subtitle has its lyric |
| GuiWorker.RunWorkerAsWritten | main_faster-whisper.py:20-41 | worker as written: nothing is left under `temp` and every file outside it survives; the lyric is delivered for every selected file whose run wrote its subtitle and whose stem is more than dots |
| GuiWorker.StartProcessing | main_faster-whisper.py:88-102 | start is refused if and only if the folder or the language field is empty; otherwise a worker starts with the three values as entered |
| GuiWorker.StartIgnoresModel | main_faster-whisper.py:92-94 | the model field takes no part in the start check: refusal depends on the folder and the language alone |

## Left out

- The transcriber (`whisper`, `whisper-ctranslate2`) is not modelled. Each run is a parameter:
  the files it writes, or a failure. Where a run puts its subtitle, and under what name, is
  therefore not proved.
- `load_config.py`, `config.json`, the Tk folder dialog and `prettytable` are not modelled. The
  folder, model and language arrive as values.
- Progress reporting is not modelled: `tqdm`, the final messages, the Qt progress signal and its
  percentage `int((idx + 1) / total_files * 100)`, which uses floating point. Widget enabling and
  the `finished` signal are left out too.
- Threads are left out. The worker runs to completion before anything else happens.
- Reading and writing bytes is not modelled. The text is taken after UTF-8 decoding and
  universal-newline translation (`\r\n` and a lone `\r` both become `\n` on reading). A decoding error, which makes the
  converter raise, is not modelled.
- SrtPattern.DigitRun: `\d` is taken as an ASCII digit. Python's `\d` on `str` also accepts other
  Unicode decimal digits.
- Paths follow POSIX `os.path` and `PurePosixPath`. Windows paths (`ntpath`, backslashes, drive
  letters) are not modelled.
- File trees hold files only. The following are not modelled:
  - directories that `os.walk`/`rglob` list, or that `exists` finds, in place of files;
  - `os.remove` failing on a directory;
  - `temp` already existing as a file.
- Paths are assumed to be spelled in one canonical form. The cleanup finds a directory's files by
  comparing `dirname`s, where the script lists the directory.
- In `main_faster-whisper.py` a failure of the converter is not checked by the worker. The model
  lets the converter fail only for a missing subtitle, which the worker rules out beforehand.
- GuiWorker.Move: always succeeds. A failing `shutil.move` at main_faster-whisper.py:39 raises,
  ends `run()` and skips the `rmtree` at line 41, leaving `temp` behind; that failure path is not
  modelled, because the model's trees have no permissions or devices that could make it fail.
- The worker's `cwd=temp` and the converter being run as a separate process are not modelled. The
  temporary directory is the relative path "temp" and the converter is a function call.
- GuiWorker.RunWorkerAsWritten: it promises the lyric only for stems that are more than dots,
  because for an all-dots stem the code as written loses it (see "## Findings" and
  GuiWorker.AsWrittenLosesLyric). GuiWorker.RunWorker runs the corrected step and promises it for
  every stem.
- The shell command lines at `main_faster-whisper.py:33` and `:36` are not modelled. They put the
  paths between double quotes and run them with `shell=True`. A name that contains `$`, a backquote,
  `"` or `\` is therefore changed or split by the shell before the transcriber or the converter sees
  it. The model passes every path through verbatim.
- PurePath.Suffix: `suffix` follows the rule of CPython's `pathlib` up to version 3.13: a name has
  a suffix when its last dot lies strictly after the first character and before the last one
  (`0 < i < len(name) - 1`). The rule of later versions is not modelled.

## Findings

| source | as written | input that shows it | evidently intended | confidence | as-written member | corrected member |
|---|---|---|---|---|---|---|
| main_faster-whisper.py:32-39 | the worker looks for the lyric at `temp/<stem>.lrc`, but the converter writes `splitext(srt)[0] + '.lrc'`; for a stem of dots only, `splitext("temp/..srt")` splits nothing off, so the lyric goes to `temp/..srt.lrc`, is never moved, and is deleted with `temp` | the audio file "music/..mp3" (suffix ".mp3", stem "."), no lyric beforehand, and the transcriber writes "temp/..srt"; a transcriber that names its output from the `splitext` root of the audio base name would write "temp/..mp3.srt" instead, the check at line 35 would fail and the lyric would be lost even earlier, so this is one of two ways the file loses its lyric | the lyric the converter wrote is moved next to the audio file | not executed | GuiWorker.AsWrittenLosesLyric | GuiWorker.WorkerStepDelivers |
