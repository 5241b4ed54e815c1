# AudiobookGenFR in Dafny

AudiobookGenFR turns an EPUB or PDF book into French narration. It has five
parts, and each has a module here:

- **Document processing (`EpubText`, `PdfChapters`).** Chapters are read from the book. Chapter titles are normalised. Lone line breaks and whitespace runs are collapsed. Each chapter's `content_src` is matched against the extracted files, and PDF lines are grouped into chapters by keyword and font size.
- **Speech synthesis (`Speech`).** Each chapter is sent to the edge-tts voices, with the title read in a fixed voice. The pieces are joined with ffmpeg.
- **Quality checks (`Quality`).** Synthesized audio can be scored against a reference and the scores summarised.
- **Conversion (`Conversion`).** The Tk window drives a first pass over the chapters. A second pass retries the chapters that failed.
- **Utilities (`FileUtils`).** Small helpers name the output files.

The model follows the code, file by file:

| file | modules |
|---|---|
| `wrappers.dfy` | `Wrappers`: `Option`. |
| `text.dfy` | `Text`: Python's `str.isspace`, `strip`, `in`, `join`, `rfind`, `str(int)` and `int(str)`. |
| `utils.dfy` | `FileUtils`: `sanitize_filename`, `get_filename_without_extension`, `create_unique_filename`, the unit choice of `format_file_size`. It also has the POSIX `os.path.basename` and `os.path.join`. |
| `epub.dfy` | `EpubText`: the text rules of `EpubProcessor`. |
| `pdf.dfy` | `PdfChapters`: `PdfProcessor.detect_chapters`, with a reference partition of the lines into sections. |
| `speech.dfy` | `Speech`: `SUPPORTED_VOICES`, `text_to_speech` as a plan of abstract actions, the module-level `convert_chapters`. |
| `quality.dfy` | `RealSort` and `Quality`: the verdict and history of `check_audio_quality`, and `get_statistics`. |
| `gui.dfy` | `Conversion`: the chapter filter, the voice field, `start_conversion`, the first pass `convert_chapters`, and the second pass `second_pass_conversion`/`convert_failed_chapters`. |

## Modelling decisions

**External effects are parameters.** Nothing outside the code is called:

- Speech synthesis, the `ffmpeg` command, `os.replace` and `os.remove` are `Speech.Action` values. Their outcomes come from a `Speech.SpeechOracle`. The file system is the set of paths that exist.
- The per-call outcomes of a whole loop are a function from the call's number to an oracle.
- The stop button is a function `stop: nat -> bool`. Its value at `i` is what the loop reads before chapter (or iteration) `i`.
- Whisper and the sentence embedding are a `Transcription` and a function from a text to an optional real score.

**Floats are exact reals.** Python floats and numpy `float32` are modelled as `real`.

**Python semantics are modelled explicitly:**

- Python strings are `seq<char>`.
- Truthiness of `''` and `None` is written out.
- A Python `for` over a list that the loop body mutates is modelled through the iterator's index.

**What the conversion code does and does not do.** Some facts about the code shape the model:

- `text_to_speech` (text_to_speech.py:16-46) synthesizes a whole chapter in one call, plus at most one call for its title.
- Its `max_retries` parameter is never read.
- The conversion in gui.py:269-393 never calls the quality checker.
- Nothing waits between the first pass and the second pass.

## Model

| member | source | states |
|---|---|---|
| Text.Strip | epub_processor.py:94 | `s.strip()` is the slice of `s` between its first and last non-whitespace characters. Everything outside that slice is whitespace. It is empty exactly when `s` is blank. |
| Text.StripIdempotent | epub_processor.py:44 | Stripping a stripped string changes nothing. |
| Text.IntToStringRoundTrip | gui.py:245 | `int(str(i)) == i` for every integer, with `int()` reading an optional sign and ASCII digits inside surrounding whitespace. |
| FileUtils.SanitizeFilename | utils.py:56-63 | The result has the input's length. Each character of the unsafe list (angle brackets, colon, double quote, both slashes, vertical bar, question mark, asterisk) becomes `_`. Every other character stays in place. No unsafe character remains. |
| FileUtils.ReplaceEachPointwise | utils.py:60-62 | The chain of `str.replace(c, '_')` calls over the unsafe list replaces exactly the characters in that list, position by position. |
| FileUtils.SanitizeIdempotent | utils.py:56-63 | Sanitizing twice is sanitizing once. |
| FileUtils.Basename | utils.py:54 | `os.path.basename` is the longest suffix without `/`. When it is shorter than the path, a `/` precedes it. |
| FileUtils.JoinPath | utils.py:71 | `os.path.join` ends with the name. An absolute name replaces the directory. Otherwise the directory is kept as a prefix, with at most one added `/`. |
| FileUtils.BasenameOfJoin | gui.py:277 | Joining a directory with a name that has no `/` and taking the base name gives the name back. |
| FileUtils.FilenameWithoutExtension | utils.py:50-54 | A prefix of the base name. It is the whole base name exactly when there is no dot preceded by a non-dot. Otherwise it stops at the last dot. |
| FileUtils.StemOfJoinedPath | utils.py:50-54 | Round trip: `dir/stem.ext` gives back `stem` whenever `stem` has a non-dot character and `ext` has no dot. |
| FileUtils.CandidateInjective | utils.py:70-72 | The candidate names `base.ext`, `base_1.ext`, `base_2.ext` and so on are pairwise distinct. |
| FileUtils.CreateUniqueFilename | utils.py:65-74 | The name returned is not in the existing set. It is the first candidate that is free, and every earlier one is taken. The loop terminates for a finite set. |
| FileUtils.FormatFileSizeUnit | utils.py:35-42 | There is no unit exactly when size ≥ 1024^5. Otherwise unit k has size < 1024^(k+1), and size ≥ 1024^k when k > 0. The scaled value times 1024^k is the size. |
| EpubText.NormalizeTitle | epub_processor.py:44-46 | The title ends with `.`. It is the stripped title, plus a `.` only when one is missing. |
| EpubText.NormalizeTitleIdempotent | epub_processor.py:44-46 | Normalising a normalised title changes nothing. |
| EpubText.JoinLoneNewlines | epub_processor.py:64 | The length is kept. Each `\n` with no `\n` neighbour becomes a space, and every other character is kept. |
| EpubText.NewlineRunsKept | epub_processor.py:64 | Runs of two or more newlines come through verbatim. |
| EpubText.JoinLoneNewlinesIdempotent | epub_processor.py:64 | Applying the newline rule twice is applying it once. |
| EpubText.CollapseWhitespace | epub_processor.py:94 | `' '.join(s.split())`: the words of the input, each a maximal run of non-whitespace, joined by single spaces. So there is no leading or trailing whitespace, only `' '` as whitespace, and no two adjacent spaces. The non-whitespace characters are those of the input, in order. |
| EpubText.CollapseWhitespaceIdempotent | epub_processor.py:94 | Collapsing collapsed text changes nothing. |
| EpubText.DictPut | epub_processor.py:81 | Dict assignment: a new key is appended at the end, and an existing key keeps its place with the new value. Keys stay distinct. |
| EpubText.TextByFile | epub_processor.py:76-81 | The table has distinct keys, all ending in `.html`, `.htm` or `.xhtml`. |
| EpubText.LastNamed | epub_processor.py:76-81 | The index of the last walk entry with the name, with no later entry of that name. `None` exactly when no entry has it. |
| EpubText.FirstNamed | epub_processor.py:76-81 | The index of the first walk entry with the name, with no earlier entry of that name. `None` exactly when no entry has it. |
| EpubText.TextByFileContents | epub_processor.py:76-81 | Every HTML file of the walk has a key, and every key is the name of some walk entry. Each key maps to the stripped text of the last file with that name. Keys come in the order their names were first met. |
| EpubText.BeforeHash | epub_processor.py:86 | `split('#')[0]` is the prefix before the first `#`. It contains no `#`. |
| EpubText.FirstContaining | epub_processor.py:87-90 | The first file name in insertion order that contains the needle, and no earlier one contains it. `None` when no file name contains it. |
| EpubText.ResolveContent | epub_processor.py:83-92 | No or empty `content_src` gives `''`. Otherwise the result is the text of the first file whose name contains the base name of the part before `#`, or `''` when none does. |
| EpubText.AnalyzeEpub | epub_processor.py:70-99 | One chapter per navigation point, in order. Each has the normalised title, its `content_src`, and the collapsed resolved content. |
| PdfChapters.MaxSize | epub_processor.py:124 | The maximum font size is at least every line's size and is some line's size. |
| PdfChapters.MatchesKeywordFromIff | epub_processor.py:120 | The pattern matches exactly when the line starts with one of the five keywords (ASCII case-insensitive), then whitespace, a digit, and no newline before the end. |
| PdfChapters.NoKeywordInitial | epub_processor.py:120 | A line whose first letter is not c, p, s or t, in either case, never matches the pattern. |
| PdfChapters.SectionsFlatten | epub_processor.py:128-136 | The sections cover exactly the lines after those before the first title line, in order. |
| PdfChapters.SectionsWellFormed | epub_processor.py:129-136 | Each section starts with a title line and its body has no title line. |
| PdfChapters.SectionsHeads | epub_processor.py:129-133 | The section heads are the title lines, in input order. |
| PdfChapters.ScanLinesAgrees | epub_processor.py:121-138 | The state machine of `detect_chapters` agrees with the section partition after every line. |
| PdfChapters.DetectChapters | epub_processor.py:118-139 | The chapters are the sections whose title is non-empty, each with its body joined by `\n`. An empty input gives no chapter. |
| PdfChapters.DetectChaptersTitles | epub_processor.py:128-138 | The chapter titles are the non-empty title lines, in order. |
| PdfChapters.EmptyTitleDropsChapter | epub_processor.py:130-137 | A title line with empty text and the largest font opens no chapter. Its body is dropped, and the result is empty. |
| PdfChapters.DetectChaptersFixed | epub_processor.py:118-139 | The corrected detector emits one chapter per section. |
| PdfChapters.DetectChaptersFixedTitles | epub_processor.py:128-138 | The corrected detector emits exactly one chapter per title line, in input order. |
| PdfChapters.DetectChaptersFixedNonEmpty | epub_processor.py:124-129 | With non-negative font sizes, a non-empty input yields at least one chapter, because the line of largest size is a title. |
| Speech.SupportedVoiceIndices | text_to_speech.py:8-14 | The supported voice indices are exactly 1 to 5. |
| Speech.SignedPercent | text_to_speech.py:24-25 | The string ends in `%`. It starts with `+` exactly for n ≥ 0 and with `-` exactly for n < 0. |
| Speech.SignedPercentRoundTrip | text_to_speech.py:24-25 | Reading the number before `%` gives n back. |
| Speech.SignedPercentInjective | text_to_speech.py:24-25 | Distinct numbers give distinct strings. |
| Speech.TitleIfTruthy | text_to_speech.py:31 | A title is read exactly when it is given and non-empty. |
| Speech.Save | text_to_speech.py:32-36 | One synthesis. It raises exactly when the save fails, adds only its target on success, and touches no other path. |
| Speech.Cleanup | text_to_speech.py:47-51 | Afterwards both temporary files are absent and nothing else changed. Only temporary files that existed are removed. |
| Speech.AttemptFollowsPlan | text_to_speech.py:30-46 | The `try` block runs the planned actions in order. It succeeds exactly when every step does. It changes no path but the temporary files and the output. |
| Speech.PlannedSyntheses | text_to_speech.py:22-41 | The plan holds 1 to 3 actions. The title is synthesized first with `fr-FR-HenriNeural`, then the body with the chosen voice. With a title, the pieces are concatenated into the output; without one, the body file is moved there. |
| Speech.InvalidVoiceRejected | text_to_speech.py:19-20 | An unsupported index raises `ValueError` before any action and leaves the files unchanged. A `ValueError` arises only then. |
| Speech.TextToSpeechFacts | text_to_speech.py:16-51 | The plan runs, then only removals follow. The error is absent exactly when every step succeeds, and errors propagate. No temporary file survives any exit. Nothing but the output and the temporary files changes. On success the output exists. |
| Speech.MaxRetriesUnused | text_to_speech.py:16 | The result does not depend on `max_retries`. |
| Speech.ChapterFileName | text_to_speech.py:58 | `chapitre_i.mp3` contains no `/`. |
| Speech.ChapterOutputsDistinct | text_to_speech.py:58-59 | Distinct positions get distinct output paths. |
| Speech.NonBlankPositions | text_to_speech.py:56-57 | The 1-based positions of the non-blank chapters: increasing, and all of them. |
| Speech.ConvertFrom | text_to_speech.py:55-63 | Each converted position i is written to `output_dir/chapitre_i.mp3`. |
| Speech.ConvertChapters | text_to_speech.py:55-63 | The same naming, for the loop from the first chapter. |
| Speech.ConvertChaptersOrder | text_to_speech.py:56-63 | The chapters converted are a prefix of the non-blank positions. That prefix is all of them when no call raises, and a raising call ends the loop. |
| Speech.NoCallKeepsFiles | text_to_speech.py:56-63 | When no chapter is converted, nothing is done and the files are unchanged. |
| Speech.CallWithoutTitle | text_to_speech.py:38-41 | A call with a supported voice and without a title never concatenates, synthesizes only the body file, and leaves no temporary file. |
| Speech.LoopCalls | text_to_speech.py:56-60 | When every call behaves so, the whole loop does too. |
| Speech.ConvertChaptersCalls | text_to_speech.py:60 | The module loop calls `text_to_speech` without a title: no concatenation, only body syntheses, and no temporary file left once a chapter was converted. |
| RealSort.Sort | audio_quality_checker.py:83 | Sorting for the median gives a sorted permutation of the scores. |
| RealSort.SortedEnds | audio_quality_checker.py:83 | The ends of the sorted scores bound every score and are scores themselves. |
| Quality.NewChecker | audio_quality_checker.py:11-19 | A new checker keeps the given threshold and an empty history. |
| Quality.CheckAudioQuality | audio_quality_checker.py:33-72 | The threshold is kept. The history grows by one record, as a prefix extension, exactly when a score was computed. A passing verdict needs such a record and a non-numpy score. |
| Quality.AsWrittenVerdict | audio_quality_checker.py:43-68 | As written, the verdict is true exactly when a score was computed, it is not a numpy scalar, and it reaches the threshold. |
| Quality.ExceptionReturnsFalse | audio_quality_checker.py:70-72 | A failed transcription or encoding returns `False` and records nothing. |
| Quality.RecordedVerdictReturned | audio_quality_checker.py:52-68 | When logging does not raise, the returned verdict is the recorded `passed_threshold`. |
| Quality.SentenceIrrelevant | audio_quality_checker.py:43-54 | The sentence never affects the verdict. The records differ only in `original_text`. |
| Quality.NumpyScoreNeverPasses | audio_quality_checker.py:52-59 | A numpy score of 0.9 under the default threshold is recorded as passed but returns `False`. The corrected check returns `True`. |
| Quality.CheckAudioQualityFixed | audio_quality_checker.py:33-72 | The corrected check keeps the threshold and extends the history by at most one record. |
| Quality.FixedVerdict | audio_quality_checker.py:48-68 | The corrected verdict is true exactly when a score was computed and reaches the threshold. The record carries that verdict, the score, the transcription, the sentence and the file's base name. |
| Quality.ChecksKeepConsistency | audio_quality_checker.py:52-56 | Every record's `passed_threshold` is its score compared with the threshold, and each check keeps this true. |
| Quality.Scores | audio_quality_checker.py:79 | The scores are the records' similarity scores, in order. |
| Quality.Min | audio_quality_checker.py:84 | The minimum is a score and is at most every score. |
| Quality.Max | audio_quality_checker.py:85 | The maximum is a score and is at least every score. |
| Quality.CountFailed | audio_quality_checker.py:86 | The failed count is at most the number of records. |
| Quality.GetStatistics | audio_quality_checker.py:74-90 | `None` exactly when the history is empty. Otherwise: the total is the history's length, the threshold is the checker's, and min and max are scores bounding every score. The mean is `np.mean` of the scores and the median is `np.median` of them. The failed count is the number of records not passed, and failed ≤ total. The function is pure, so the history is untouched. |
| Quality.MeanTimesCount | audio_quality_checker.py:82 | The mean times the number of scores is their sum. |
| Quality.StatisticsBounds | audio_quality_checker.py:82-85 | min ≤ mean ≤ max and min ≤ median ≤ max. |
| Quality.SumBounds | audio_quality_checker.py:82 | The sum of n scores within [lo, hi] is within [n·lo, n·hi]. |
| Quality.MeanBetween | audio_quality_checker.py:82 | The mean of scores within [lo, hi] is within [lo, hi]. |
| Quality.MedianBetween | audio_quality_checker.py:83 | numpy's median of scores within [lo, hi], averaging the two middle values for even counts, is within [lo, hi]. |
| Quality.FailedAreBelowThreshold | audio_quality_checker.py:86 | In a consistent history, the failed count is the number of scores below the threshold. |
| Conversion.KeepNonBlank | gui.py:198 | Every kept chapter has non-whitespace content. |
| Conversion.KeepNonBlankFacts | gui.py:198 | The kept chapters are a subsequence of the chapters, with relative order preserved. Each non-blank chapter is kept as many times as the list holds it, and no blank chapter is kept. |
| Conversion.FindFrom | gui.py:245 | The first occurrence of the separator at or after i, or `None` when there is none. |
| Conversion.FirstField | gui.py:245 | `split(' - ')[0]` is the prefix of the field before the first separator: no separator starts inside it, and one starts right after it. When the field holds no separator, it is the whole field. |
| Conversion.VoiceFieldRoundTrip | gui.py:245 | A field written as `k - name` reads back as k. |
| Conversion.InitialVoiceIsFour | gui.py:32 | The voice field's initial value reads as 4. |
| Conversion.BookFolderName | gui.py:238-239 | The folder name contains no unsafe character and no `/`. |
| Conversion.BookFolder | gui.py:238-240 | The output directory's base name is the sanitized book name. |
| Conversion.StartConversion | gui.py:222-251 | The conversion is refused exactly when the chapters, the book path or the output path are empty, with the message for the first one missing. Otherwise the directory is the book folder. `os.makedirs` failing raises before the voice field is read. The conversion starts exactly when the folder is created and the voice field parses, with that voice. |
| Conversion.StartUsesVoiceFour | gui.py:245 | With the field as initialised and the folder created, every conversion that is not refused starts with voice 4. |
| Conversion.FirstPassFrom | gui.py:269-296 | Every chapter tried at position i writes to `output_dir/chapitre_i.mp3`. |
| Conversion.FirstPassRun | gui.py:269-296 | The same naming, for the pass from the first chapter. |
| Conversion.TriedPositionsExact | gui.py:271-275 | The reference list of positions holds, in increasing order, exactly the non-blank chapters reached before the flag is seen set. |
| Conversion.FirstPassPositions | gui.py:271-282 | The pass tries exactly the reference positions, whatever the calls do. |
| Conversion.FirstPassTries | gui.py:271-275 | The pass checks the flag before each chapter. It tries, in order, exactly the non-blank chapters before the first set flag, and no chapter after it. |
| Conversion.FirstPassFailures | gui.py:281-292 | `failed_chapters` is extended, in order, by exactly the tried chapters whose call raised, each with its position, chapter and output. |
| Conversion.FirstPassHints | gui.py:286-291 | The quota hint follows a failure exactly when its message contains `No audio was received`. |
| Conversion.FirstPassReadsTitle | gui.py:282 | With a non-empty title, each first-pass call first reads the title with `fr-FR-HenriNeural` at `+0%`. |
| Conversion.StartSecondPass | gui.py:355-364 | Nothing happens exactly when no chapter failed. Otherwise the pass starts exactly when the voice field parses. |
| Conversion.SecondPassUsesVoiceFour | gui.py:361 | With the field as initialised, a second pass over some failures uses voice 4. |
| Conversion.RemoveFirst | gui.py:384 | `list.remove(x)` shortens the list by one and takes out one copy of x. |
| Conversion.RemoveFirstAt | gui.py:384 | The copy removed is the first, and the others keep their order. |
| Conversion.RemoveFirstSubseq | gui.py:384 | The list after `remove` is a subsequence of the list before. |
| Conversion.SecondPassCallUntitled | gui.py:382 | A second-pass call reads no title, unlike the first pass. |
| Conversion.SecondPassFrom | gui.py:377-388 | The entries left plus those converted number as many as the list held, and one note is written per entry tried. |
| Conversion.SecondPassRun | gui.py:377-388 | The same count, for the pass over `failed_chapters`. |
| Conversion.SummaryOf | gui.py:390-393 | The summary says all chapters were converted exactly when the list is empty. Otherwise it gives the list's length. |
| Conversion.SecondPassAccounts | gui.py:378-384 | The list afterwards is a subsequence of the list before. As multisets, the entries left plus those converted are the list. |
| Conversion.SecondPassSkipsAfterSuccess | gui.py:378-384 | After a success at index i, the next entry tried is the one at i+2. When the skipped entry was the last, it stays in the list untried. |
| Conversion.SecondPassSkipsNext | gui.py:378-384 | Two failed entries, and every call succeeds: only the first is tried, and one chapter is reported as not converted. |
| Conversion.SecondPassFixed | gui.py:377-393 | The corrected pass, iterating over a copy: the entries left plus those converted number as many as the entries. |
| Conversion.SecondPassFixedTries | gui.py:378-380 | The corrected pass tries the entries in order up to the flag, all of them when the flag stays clear. |
| Conversion.SecondPassFixedAccounts | gui.py:378-384 | The entries left are, in order, the entries not converted. The converted ones were tried. As multisets, the entries left plus those converted are the entries. |
| Conversion.SecondPassFixedConvertsAll | gui.py:378-393 | When every call succeeds, the corrected pass converts every entry and reports them all converted. |

## Left out

- **User interface, threads and event loops.** The Tk and Kivy interfaces are not modelled: widgets, dialogs, progress bar, status texts and pygame playback. Threads, `asyncio.run` and `asyncio.sleep`, and `master.after` callbacks are not modelled either. The notes the passes write stand in for the details pane.
- **The stop button.** `stop_conversion` (gui.py:298-299) only sets `stop_requested`, which is never reset. It is the `stop` function that the passes read.
- **External libraries.** Zip extraction, BeautifulSoup, `os.walk` and pdfminer are left out. The model starts from navigation points, per-file texts and (line, size) pairs. An HTML file that cannot be read is a file whose text is absent, which gives `''`.
- **Speech services and ffmpeg.** The edge-tts service, the shell command running ffmpeg, its quoting and its exit status are oracle outcomes. `Speech.SpeechOracle.ffmpegWrites` says whether ffmpeg wrote the output. An `os.remove` that fails in the `finally` block is not modelled.
- **Quality scoring.** Whisper, the sentence embedding, cosine similarity in `float32`, logging, and the JSON log file are left out. Only whether `json.dumps` raises is kept, as `numpyScore`.
- **Float formatting.** The `%.2f` rendering of `format_file_size` is left out. Division by 1024 is exact here.
- **Regular expressions and `int()`.** `re.IGNORECASE` and `\d` are modelled for ASCII only: the Unicode case folding of Python's `re` and its non-ASCII digits are left out. `int()` is modelled without underscores and without non-ASCII digits.
- **Dispatch by extension.** `analyze_epub_button_clicked` chooses by file extension, and that choice is left out. On the PDF path, `detect_chapters` returns dicts, yet the filter at gui.py:198 reads `.content`, which raises. Only the EPUB chapters are filtered here.
- **Chapter display.** `display_chapter_details` and the word counts are left out.
- Conversion.RemoveFirst: requires x to be in the list. The second pass only removes an entry it has just read from the list, so Python's `ValueError` for a missing element cannot happen.
- **Value equality.** The model compares `failed_chapters` entries by value. Python compares the `Chapter` objects inside the tuples by identity, because `Chapter` (epub_processor.py:21) defines no `__eq__`. Positions in the list can repeat: it is created once (gui.py:36) and only appended to (gui.py:292), so every click on Convertir adds to it. Suppose the book is analysed again between two clicks (gui.py:189-198). Two entries can then hold equal values but different objects. `Conversion.RemoveFirst` may then take out an earlier equal entry where Python takes out the entry just read. The remaining entries agree as values, but their order can differ.
- Conversion.SecondPassFixed: builds the list left over from the failures and the entries the flag kept from being tried. It does not remove from a live list. For distinct entries the two agree.
- **Cleanup and other utilities.** `clean_tmp`, `convert_to_pdf`, `test_voice`, `resource_path`, `ensure_dir`, `get_file_size`, `is_valid_file`, `convert_epub_to_pdf` and `main.py` are left out. They are process and file-system plumbing.

## Findings

| source | as written | input that shows it | evidently intended | confidence | as-written member | corrected member |
|---|---|---|---|---|---|---|
| epub_processor.py:130-137 | `if current_chapter:` tests the title's truthiness, so a title line whose text is empty opens no chapter and its body is dropped | lines `("", 12.0)` then `("Il était une fois", 10.0)`: the threshold is 10.8, the first line is a title, and the result is `[]` | one chapter per title line, so a non-empty input yields at least one chapter | high, not executed | PdfChapters.EmptyTitleDropsChapter | PdfChapters.DetectChaptersFixedNonEmpty |
| audio_quality_checker.py:52-59 | `similarity >= self.threshold` on a numpy scalar is a numpy boolean, which `json.dumps` refuses; the exception is caught after the record was appended, so the call returns `False` | any transcription scored 0.9 with threshold 0.85: the record says passed, and the call returns `False` | store a Python `bool`, so that the verdict is the threshold comparison | medium, not executed | Quality.NumpyScoreNeverPasses | Quality.FixedVerdict |
| gui.py:378-384 | `failed_chapters.remove(...)` inside `for ... in self.failed_chapters` shifts the next entry under the loop's index, so the entry after each success is not tried in that pass | two failed entries, both calls succeeding: only the first is tried, and one chapter is reported as not converted | try every failed entry once and remove the converted ones | high, not executed | Conversion.SecondPassSkipsNext | Conversion.SecondPassFixedConvertsAll |
