/** `gui.py`: the bookkeeping of `EpubToAudioGUI` behind its widgets — the
    filter of blank chapters after analysis, the voice index read from the
    voice field, the output folder of a conversion, the first conversion
    pass and the second pass over the chapters that failed. Speech synthesis
    is `text_to_speech` as the `Speech` module states it, with its outcomes
    given by an oracle per call; the Stop button is a flag read before each
    chapter, given as a function of the chapter position. */
module Conversion {
  import opened Wrappers
  import opened Text
  import FileUtils
  import EpubText
  import Speech

  type Chapter = EpubText.Chapter

  // ---------------------------------------------------------------------
  // Subsequences
  // ---------------------------------------------------------------------

  /** `a` is `b` with some elements left out, the rest in their order. */
  predicate Subseq<T(==)>(a: seq<T>, b: seq<T>)
    decreases |b|
  {
    if |a| == 0 then true
    else if |b| == 0 then false
    else (a[0] == b[0] && Subseq(a[1..], b[1..])) || Subseq(a, b[1..])
  }

  lemma {:induction false} SubseqRefl<T>(a: seq<T>)
    ensures Subseq(a, a)
    decreases |a|
  {
    if |a| > 0 {
      SubseqRefl(a[1..]);
    }
  }

  lemma {:induction false} SubseqTrans<T>(a: seq<T>, b: seq<T>, c: seq<T>)
    requires Subseq(a, b) && Subseq(b, c)
    ensures Subseq(a, c)
    decreases |c|
  {
    if |a| > 0 {
      if Subseq(b, c[1..]) {
        SubseqTrans(a, b, c[1..]);
      } else if a[0] == b[0] && Subseq(a[1..], b[1..]) {
        SubseqTrans(a[1..], b[1..], c[1..]);
      } else {
        SubseqTrans(a, b[1..], c[1..]);
      }
    }
  }

  /** Every element of a subsequence is an element of the sequence. */
  lemma {:induction false} SubseqElements<T>(a: seq<T>, b: seq<T>)
    requires Subseq(a, b)
    ensures |a| <= |b|
    ensures forall x :: x in a ==> x in b
    decreases |b|
  {
    if |a| > 0 {
      if a[0] == b[0] && Subseq(a[1..], b[1..]) {
        SubseqElements(a[1..], b[1..]);
        assert forall x :: x in a ==> x == a[0] || x in a[1..];
      } else {
        SubseqElements(a, b[1..]);
      }
    }
  }

  // ---------------------------------------------------------------------
  // Blank chapters (line 198)
  // ---------------------------------------------------------------------

  /** `[c for c in chapters if c.content.strip()]`. */
  function KeepNonBlank(chapters: seq<Chapter>): (r: seq<Chapter>)
    ensures forall j :: 0 <= j < |r| ==> !IsBlank(r[j].content)
    decreases |chapters|
  {
    if |chapters| == 0 then []
    else if IsBlank(chapters[0].content) then KeepNonBlank(chapters[1..])
    else [chapters[0]] + KeepNonBlank(chapters[1..])
  }

  /** The filter keeps the non-blank chapters in their order, each as often
      as the list holds it, and drops every blank one. */
  lemma {:induction false} KeepNonBlankFacts(chapters: seq<Chapter>)
    ensures Subseq(KeepNonBlank(chapters), chapters)
    ensures forall j :: 0 <= j < |chapters| && !IsBlank(chapters[j].content) ==> chapters[j] in KeepNonBlank(chapters)
    ensures forall x :: multiset(KeepNonBlank(chapters))[x] == (if IsBlank(x.content) then 0 else multiset(chapters)[x])
    decreases |chapters|
  {
    if |chapters| > 0 {
      var rest := KeepNonBlank(chapters[1..]);
      KeepNonBlankFacts(chapters[1..]);
      assert chapters == [chapters[0]] + chapters[1..];
      assert forall j :: 1 <= j < |chapters| ==> chapters[j] == chapters[1..][j - 1];
      if IsBlank(chapters[0].content) {
        if |rest| > 0 {
          assert Subseq(rest, chapters[1..]);
        }
      } else {
        assert KeepNonBlank(chapters)[1..] == rest;
      }
    }
  }

  // ---------------------------------------------------------------------
  // The voice field
  // ---------------------------------------------------------------------

  const VoiceSeparator: string := " - "

  /** The index of the first occurrence of `sep` in `s` at or after `i`. */
  function FindFrom(s: string, sep: string, i: nat): (r: Option<nat>)
    requires i <= |s|
    ensures r.Some? ==> i <= r.value && OccursAt(s, sep, r.value)
    ensures forall p :: i <= p < (if r.Some? then r.value else |s| + 1) ==> !OccursAt(s, sep, p)
    decreases |s| - i
  {
    if OccursAt(s, sep, i) then Some(i)
    else if i == |s| then None
    else FindFrom(s, sep, i + 1)
  }

  /** `s.split(sep)[0]`: what comes before the first `sep`, or all of `s`. */
  function FirstField(s: string, sep: string): (r: string)
    ensures |r| <= |s| && r == s[..|r|]
    ensures forall p :: 0 <= p < |r| ==> !OccursAt(s, sep, p)
    ensures OccursAt(s, sep, |r|) || (r == s && forall p :: 0 <= p <= |s| ==> !OccursAt(s, sep, p))
  {
    match FindFrom(s, sep, 0)
    case Some(p) => s[..p]
    case None => s
  }

  /** `int(field.split(' - ')[0])`, `None` when `int` raises. */
  function VoiceIndexOf(field: string): Option<int> {
    ParseInt(FirstField(field, VoiceSeparator))
  }

  /** The entry of the voice list for index `k`: `f"{k} - {v}"`. */
  function VoiceOption(k: int): string
    requires k in Speech.SupportedVoices
  {
    IntToString(k) + VoiceSeparator + Speech.SupportedVoices[k]
  }

  /** The initial value of `self.voice_index`. Nothing writes this field
      afterwards (the drop-down list edits another variable), so every
      conversion reads this value. */
  const InitialVoiceField: string := "4 - fr-FR-RemyMultilingualNeural"

  /** Reading an entry `f"{k} - {v}"` gives back `k`, whatever `v` is. */
  lemma VoiceFieldRoundTrip(k: int, v: string)
    ensures VoiceIndexOf(IntToString(k) + VoiceSeparator + v) == Some(k)
  {
    var n := IntToString(k);
    var s := n + VoiceSeparator + v;
    assert OccursAt(s, VoiceSeparator, |n|) by {
      assert s[|n|..|n| + 3] == VoiceSeparator;
    }
    forall p | 0 <= p < |n|
      ensures !OccursAt(s, VoiceSeparator, p)
    {
      NumeralCharNotSpace(n[p]);
      assert s[p] == n[p];
    }
    assert FindFrom(s, VoiceSeparator, 0) == Some(|n|) by {
      FindFromFirst(s, VoiceSeparator, 0, |n|);
    }
    assert FirstField(s, VoiceSeparator) == n;
    IntToStringRoundTrip(k);
  }

  /** The search finds the first occurrence. */
  lemma {:induction false} FindFromFirst(s: string, sep: string, i: nat, p: nat)
    requires i <= p <= |s| && OccursAt(s, sep, p)
    requires forall q :: i <= q < p ==> !OccursAt(s, sep, q)
    ensures FindFrom(s, sep, i) == Some(p)
    decreases p - i
  {
    if i < p {
      FindFromFirst(s, sep, i + 1, p);
    }
  }

  /** Every conversion reads voice 4 from the initial field. */
  lemma InitialVoiceIsFour()
    ensures VoiceIndexOf(InitialVoiceField) == Some(4)
  {
    var s := InitialVoiceField;
    assert OccursAt(s, VoiceSeparator, 1) by {
      assert s[1] == ' ' && s[2] == '-' && s[3] == ' ';
      assert s[1..4] == [s[1], s[2], s[3]];
    }
    assert !OccursAt(s, VoiceSeparator, 0) by {
      assert s[0] == '4';
    }
    FindFromFirst(s, VoiceSeparator, 0, 1);
    assert FirstField(s, VoiceSeparator) == "4" by {
      assert s[..1] == "4";
    }
    assert IntToString(4) == "4" by {
      assert NatToString(4) == [DigitChar(4)];
    }
    IntToStringRoundTrip(4);
  }

  // ---------------------------------------------------------------------
  // start_conversion
  // ---------------------------------------------------------------------

  /** What `start_conversion` does: it refuses with a status message, or it
      tries to create the output folder and raises when that fails, or it
      starts the conversion with the voice read from the field, or raises
      because the field does not start with a number. */
  datatype Start =
    | Refused(message: string)
    | FolderNotCreated(outputDir: string)
    | Started(outputDir: string, voiceIndex: int)
    | VoiceFieldInvalid(outputDir: string)

  const NoChaptersMessage: string := "Veuillez analyser un ePub avant de convertir."
  const NoBookMessage: string := "Veuillez sélectionner un fichier ePub valide."
  const NoOutputMessage: string := "Veuillez sélectionner un dossier de sortie valide."

  /** The folder a conversion writes to: the output folder joined with the
      book's file name, its extension removed and sanitized. */
  function BookFolder(outputPath: string, bookPath: string): (r: string)
    ensures FileUtils.Basename(r) == BookFolderName(bookPath)
  {
    var name := BookFolderName(bookPath);
    FileUtils.BasenameOfJoin(outputPath, name);
    FileUtils.JoinPath(outputPath, name)
  }

  /** The book's file name without its extension, sanitized: it holds no
      character that a file name may not hold, the path separator included. */
  function BookFolderName(bookPath: string): (name: string)
    ensures forall k :: 0 <= k < |name| ==> !FileUtils.IsUnsafe(name[k]) && name[k] != '/'
  {
    var name := FileUtils.SanitizeFilename(FileUtils.FilenameWithoutExtension(bookPath));
    SlashIsUnsafe();
    name
  }

  lemma SlashIsUnsafe()
    ensures FileUtils.IsUnsafe('/')
  {
    assert FileUtils.UnsafeChars[4] == '/';
  }

  /** `folderCreated` is whether `os.makedirs` succeeds on the book folder:
      the file system decides it, and it is decided before the voice field is
      read. */
  function StartConversion(chapters: seq<Chapter>, bookPath: string, outputPath: string, voiceField: string,
                           folderCreated: bool): (r: Start)
    ensures r.Refused? <==> chapters == [] || bookPath == "" || outputPath == ""
    ensures r.Refused? ==> r.message == (if chapters == [] then NoChaptersMessage
                                          else if bookPath == "" then NoBookMessage else NoOutputMessage)
    ensures !r.Refused? ==> r.outputDir == BookFolder(outputPath, bookPath)
    ensures r.FolderNotCreated? <==> !r.Refused? && !folderCreated
    ensures r.Started? <==> !r.Refused? && folderCreated && VoiceIndexOf(voiceField).Some?
    ensures r.Started? ==> r.voiceIndex == VoiceIndexOf(voiceField).value
  {
    if chapters == [] then Refused(NoChaptersMessage)
    else if bookPath == "" then Refused(NoBookMessage)
    else if outputPath == "" then Refused(NoOutputMessage)
    else
      var dir := BookFolder(outputPath, bookPath);
      if !folderCreated then FolderNotCreated(dir)
      else match VoiceIndexOf(voiceField)
      case Some(v) => Started(dir, v)
      case None => VoiceFieldInvalid(dir)
  }

  /** With the field as it is initialised and the folder created, a
      conversion that is not refused starts with voice 4. */
  lemma StartUsesVoiceFour(chapters: seq<Chapter>, bookPath: string, outputPath: string)
    ensures var r := StartConversion(chapters, bookPath, outputPath, InitialVoiceField, true);
      !r.Refused? ==> r.Started? && r.voiceIndex == 4
  {
    InitialVoiceIsFour();
  }

  // ---------------------------------------------------------------------
  // The first pass: convert_chapters
  // ---------------------------------------------------------------------

  /** An entry of `failed_chapters`: `(i, chapitre, output_file)`. */
  datatype FailedEntry = FailedEntry(position: nat, chapter: Chapter, outputFile: string)

  /** The lines the loop adds to the conversion details that the model keeps
      track of. */
  datatype Note =
    | Converted(position: nat)
    | Failed(position: nat, message: string)
    | QuotaHint
    | Skipped(position: nat)

  /** The text by which the speech service says that it sent no audio. */
  const QuotaPhrase: string := "No audio was received"

  /** The notes for a failed chapter: the failure with `str(e)`, then the
      quota hint when the message names the missing audio. */
  function FailureNotes(position: nat, message: string): seq<Note> {
    [Failed(position, message)] + (if Contains(message, QuotaPhrase) then [QuotaHint] else [])
  }

  /** One chapter the loop tried: its position, its output and what
      `text_to_speech` raised, if anything. */
  datatype Attempt = Attempt(position: nat, outputFile: string, error: Option<Speech.Error>)

  /** The chapters tried, `failed_chapters` afterwards, the notes, the actions
      of all calls and the files afterwards. */
  datatype FirstPass = FirstPass(attempts: seq<Attempt>, failed: seq<FailedEntry>, notes: seq<Note>,
                                 actions: seq<Speech.Action>, files: set<string>)

  /** A call of `text_to_speech` from the chapter, the output path, the files
      before the call and the chapter position. */
  type TitledCall = (Chapter, string, set<string>, nat) -> Speech.SpeechRun

  /** The call of the first pass: the chosen voice, default rate and volume,
      and the chapter's title. */
  function FirstPassCall(voiceIndex: int, oracle: nat -> Speech.SpeechOracle): TitledCall {
    (ch: Chapter, out: string, files: set<string>, i: nat) =>
      Speech.TextToSpeech(ch.content, voiceIndex, 0, 0, out, 3, Some(ch.title), files, oracle(i))
  }

  /** `convert_chapters(output_dir, voice_index)` from position `k` on. Before
      each chapter `i` the stop flag `stop(i)` is read and ends the loop; a
      blank chapter is skipped; any other is converted into
      `output_dir/chapitre_<i>.mp3`, and when the call raises the chapter is
      appended to `failed_chapters` and the loop goes on. */
  function FirstPassFrom(outputDir: string, chapters: seq<Chapter>, k: nat, call: TitledCall, stop: nat -> bool,
                         failed: seq<FailedEntry>, files: set<string>): (r: FirstPass)
    requires k <= |chapters|
    ensures forall j :: 0 <= j < |r.attempts| ==>
              r.attempts[j].outputFile == FileUtils.JoinPath(outputDir, Speech.ChapterFileName(r.attempts[j].position))
    decreases |chapters| - k
  {
    if k == |chapters| || stop(k + 1) then FirstPass([], failed, [], [], files)
    else if IsBlank(chapters[k].content) then
      var rest := FirstPassFrom(outputDir, chapters, k + 1, call, stop, failed, files);
      rest.(notes := [Skipped(k + 1)] + rest.notes)
    else
      var out := FileUtils.JoinPath(outputDir, Speech.ChapterFileName(k + 1));
      var c := call(chapters[k], out, files, k + 1);
      var notes := if c.error.None? then [Converted(k + 1)] else FailureNotes(k + 1, c.error.value.message);
      var failed' := if c.error.None? then failed else failed + [FailedEntry(k + 1, chapters[k], out)];
      var rest := FirstPassFrom(outputDir, chapters, k + 1, call, stop, failed', c.files);
      FirstPass([Attempt(k + 1, out, c.error)] + rest.attempts, rest.failed, notes + rest.notes,
                c.actions + rest.actions, rest.files)
  }

  /** The first pass over all chapters. */
  function FirstPassRun(outputDir: string, chapters: seq<Chapter>, voiceIndex: int, stop: nat -> bool,
                        oracle: nat -> Speech.SpeechOracle, failed: seq<FailedEntry>, files: set<string>): (r: FirstPass)
    ensures forall j :: 0 <= j < |r.attempts| ==>
              r.attempts[j].outputFile == FileUtils.JoinPath(outputDir, Speech.ChapterFileName(r.attempts[j].position))
  {
    FirstPassFrom(outputDir, chapters, 0, FirstPassCall(voiceIndex, oracle), stop, failed, files)
  }

  /** The flag was not set before any chapter from `k + 1` to `p`. */
  predicate NoStopUpTo(stop: nat -> bool, k: nat, p: nat) {
    forall q :: k < q <= p ==> !stop(q)
  }

  function Positions(attempts: seq<Attempt>): (r: seq<nat>)
    ensures |r| == |attempts| && forall j :: 0 <= j < |r| ==> r[j] == attempts[j].position
  {
    seq(|attempts|, j requires 0 <= j < |attempts| => attempts[j].position)
  }

  /** The chapters the first pass tries are, in increasing order, exactly the
      non-blank chapters reached before the stop flag was first seen set. */
  predicate TriedExactly(chapters: seq<Chapter>, k: nat, stop: nat -> bool, tried: seq<nat>) {
    && (forall j :: 0 <= j < |tried| ==>
          k < tried[j] <= |chapters| && !IsBlank(chapters[tried[j] - 1].content) && NoStopUpTo(stop, k, tried[j]))
    && (forall j, m :: 0 <= j < m < |tried| ==> tried[j] < tried[m])
    && (forall p :: k < p <= |chapters| && !IsBlank(chapters[p - 1].content) && NoStopUpTo(stop, k, p) ==> p in tried)
  }

  /** The positions the first pass reaches and tries, which do not depend on
      what the calls do. */
  function TriedPositions(chapters: seq<Chapter>, k: nat, stop: nat -> bool): seq<nat>
    requires k <= |chapters|
    decreases |chapters| - k
  {
    if k == |chapters| || stop(k + 1) then []
    else if IsBlank(chapters[k].content) then TriedPositions(chapters, k + 1, stop)
    else [k + 1] + TriedPositions(chapters, k + 1, stop)
  }

  lemma {:induction false} TriedPositionsExact(chapters: seq<Chapter>, k: nat, stop: nat -> bool)
    requires k <= |chapters|
    ensures TriedExactly(chapters, k, stop, TriedPositions(chapters, k, stop))
    decreases |chapters| - k
  {
    if k == |chapters| || stop(k + 1) {
      assert forall p :: k < p <= |chapters| ==> !NoStopUpTo(stop, k, p);
    } else if IsBlank(chapters[k].content) {
      TriedPositionsExact(chapters, k + 1, stop);
      TriedShift(chapters, k, stop, TriedPositions(chapters, k + 1, stop));
    } else {
      TriedPositionsExact(chapters, k + 1, stop);
      TriedCons(chapters, k, stop, TriedPositions(chapters, k + 1, stop));
    }
  }

  /** The first pass tries the positions `TriedPositions` names, whatever the
      calls do. */
  lemma {:induction false} FirstPassPositions(outputDir: string, chapters: seq<Chapter>, k: nat, call: TitledCall,
                                              stop: nat -> bool, failed: seq<FailedEntry>, files: set<string>)
    requires k <= |chapters|
    ensures Positions(FirstPassFrom(outputDir, chapters, k, call, stop, failed, files).attempts) == TriedPositions(chapters, k, stop)
    decreases |chapters| - k
  {
    if k < |chapters| && !stop(k + 1) {
      if IsBlank(chapters[k].content) {
        FirstPassPositions(outputDir, chapters, k + 1, call, stop, failed, files);
      } else {
        var r := FirstPassFrom(outputDir, chapters, k, call, stop, failed, files);
        var out := FileUtils.JoinPath(outputDir, Speech.ChapterFileName(k + 1));
        var c := call(chapters[k], out, files, k + 1);
        var failed' := if c.error.None? then failed else failed + [FailedEntry(k + 1, chapters[k], out)];
        var rest := FirstPassFrom(outputDir, chapters, k + 1, call, stop, failed', c.files);
        FirstPassPositions(outputDir, chapters, k + 1, call, stop, failed', c.files);
        assert r.attempts == [Attempt(k + 1, out, c.error)] + rest.attempts;
        PositionsCons(Attempt(k + 1, out, c.error), rest.attempts);
      }
    }
  }

  lemma PositionsCons(a: Attempt, rest: seq<Attempt>)
    ensures Positions([a] + rest) == [a.position] + Positions(rest)
  {
    var l := Positions([a] + rest);
    var m := [a.position] + Positions(rest);
    forall j | 0 <= j < |l|
      ensures l[j] == m[j]
    {
      if j > 0 {
        assert ([a] + rest)[j] == rest[j - 1];
      }
    }
  }

  /** The chapters the first pass tries are, in increasing order, exactly the
      non-blank chapters it reaches before the stop flag is first seen set. */
  lemma FirstPassTries(outputDir: string, chapters: seq<Chapter>, call: TitledCall, stop: nat -> bool,
                       failed: seq<FailedEntry>, files: set<string>)
    ensures TriedExactly(chapters, 0, stop, Positions(FirstPassFrom(outputDir, chapters, 0, call, stop, failed, files).attempts))
  {
    FirstPassPositions(outputDir, chapters, 0, call, stop, failed, files);
    TriedPositionsExact(chapters, 0, stop);
  }

  /** Skipping a blank chapter `k + 1` that the flag did not stop. */
  lemma TriedShift(chapters: seq<Chapter>, k: nat, stop: nat -> bool, tried: seq<nat>)
    requires k < |chapters| && !stop(k + 1) && IsBlank(chapters[k].content)
    requires TriedExactly(chapters, k + 1, stop, tried)
    ensures TriedExactly(chapters, k, stop, tried)
  {
    forall j | 0 <= j < |tried|
      ensures NoStopUpTo(stop, k, tried[j])
    {
      assert NoStopUpTo(stop, k + 1, tried[j]);
    }
    forall p | k < p <= |chapters| && !IsBlank(chapters[p - 1].content) && NoStopUpTo(stop, k, p)
      ensures p in tried
    {
      assert p != k + 1;
      assert NoStopUpTo(stop, k + 1, p);
    }
  }

  /** Trying a non-blank chapter `k + 1` that the flag did not stop. */
  lemma TriedCons(chapters: seq<Chapter>, k: nat, stop: nat -> bool, tried: seq<nat>)
    requires k < |chapters| && !stop(k + 1) && !IsBlank(chapters[k].content)
    requires TriedExactly(chapters, k + 1, stop, tried)
    ensures TriedExactly(chapters, k, stop, [k + 1] + tried)
  {
    var t := [k + 1] + tried;
    forall j | 0 <= j < |t|
      ensures k < t[j] <= |chapters| && !IsBlank(chapters[t[j] - 1].content) && NoStopUpTo(stop, k, t[j])
    {
      if j > 0 {
        assert t[j] == tried[j - 1];
        assert NoStopUpTo(stop, k + 1, t[j]);
      }
    }
    forall p | k < p <= |chapters| && !IsBlank(chapters[p - 1].content) && NoStopUpTo(stop, k, p)
      ensures p in t
    {
      if p != k + 1 {
        assert NoStopUpTo(stop, k + 1, p);
        assert p in tried;
      }
    }
  }

  /** The entries a list of attempts adds to `failed_chapters`: one per
      attempt that raised, in order. */
  function FailuresOf(attempts: seq<Attempt>, chapters: seq<Chapter>): seq<FailedEntry>
    requires forall j :: 0 <= j < |attempts| ==> 0 < attempts[j].position <= |chapters|
    decreases |attempts|
  {
    if |attempts| == 0 then []
    else
      var a := attempts[0];
      (if a.error.Some? then [FailedEntry(a.position, chapters[a.position - 1], a.outputFile)] else [])
      + FailuresOf(attempts[1..], chapters)
  }

  /** Every position the first pass tries is one of the chapters after `k`. */
  predicate InRange(attempts: seq<Attempt>, k: nat, n: nat) {
    forall j :: 0 <= j < |attempts| ==> k < attempts[j].position <= n
  }

  /** `failed_chapters` is extended by exactly the chapters whose call
      raised, in order, each with its position and output path. */
  lemma {:induction false} FirstPassFailures(outputDir: string, chapters: seq<Chapter>, k: nat, call: TitledCall,
                                             stop: nat -> bool, failed: seq<FailedEntry>, files: set<string>)
    requires k <= |chapters|
    ensures var r := FirstPassFrom(outputDir, chapters, k, call, stop, failed, files);
      && InRange(r.attempts, k, |chapters|)
      && r.failed == failed + FailuresOf(r.attempts, chapters)
    decreases |chapters| - k
  {
    if k < |chapters| && !stop(k + 1) {
      if IsBlank(chapters[k].content) {
        FirstPassFailures(outputDir, chapters, k + 1, call, stop, failed, files);
      } else {
        var out := FileUtils.JoinPath(outputDir, Speech.ChapterFileName(k + 1));
        var c := call(chapters[k], out, files, k + 1);
        var failed' := if c.error.None? then failed else failed + [FailedEntry(k + 1, chapters[k], out)];
        var rest := FirstPassFrom(outputDir, chapters, k + 1, call, stop, failed', c.files);
        FirstPassFailures(outputDir, chapters, k + 1, call, stop, failed', c.files);
        FailuresCons(Attempt(k + 1, out, c.error), rest.attempts, chapters, k, failed, rest.failed);
      }
    }
  }

  /** One more attempt in front of the attempts of the rest of the loop. */
  lemma FailuresCons(a: Attempt, rest: seq<Attempt>, chapters: seq<Chapter>, k: nat,
                     failed: seq<FailedEntry>, after: seq<FailedEntry>)
    requires a.position == k + 1 && k < |chapters| && InRange(rest, k + 1, |chapters|)
    requires var failed' := if a.error.None? then failed else failed + [FailedEntry(a.position, chapters[k], a.outputFile)];
      after == failed' + FailuresOf(rest, chapters)
    ensures InRange([a] + rest, k, |chapters|)
    ensures after == failed + FailuresOf([a] + rest, chapters)
  {
    var s := [a] + rest;
    assert s[0] == a && s[1..] == rest;
    var tail := FailuresOf(rest, chapters);
    if a.error.Some? {
      var e := FailedEntry(a.position, chapters[k], a.outputFile);
      assert FailuresOf(s, chapters) == [e] + tail;
      assert failed + [e] + tail == failed + ([e] + tail);
    } else {
      assert FailuresOf(s, chapters) == tail;
    }
  }

  /** A failure whose message names the missing audio. */
  predicate QuotaFailure(n: Note) {
    n.Failed? && Contains(n.message, QuotaPhrase)
  }

  /** Each quota hint comes right after a failure naming the missing audio,
      and each such failure is followed by a hint. */
  predicate HintsPlaced(notes: seq<Note>) {
    && (forall j {:trigger notes[j]} :: 0 <= j < |notes| ==> (notes[j].QuotaHint? <==> j > 0 && QuotaFailure(notes[j - 1])))
    && (|notes| > 0 ==> !QuotaFailure(notes[|notes| - 1]))
  }

  lemma HintsConcat(a: seq<Note>, b: seq<Note>)
    requires HintsPlaced(a) && HintsPlaced(b)
    ensures HintsPlaced(a + b)
  {
    var ab := a + b;
    forall j | 0 <= j < |ab|
      ensures ab[j].QuotaHint? <==> j > 0 && QuotaFailure(ab[j - 1])
    {
      if j < |a| {
        assert a[j].QuotaHint? <==> j > 0 && QuotaFailure(a[j - 1]);
        assert ab[j] == a[j];
        if j > 0 {
          assert ab[j - 1] == a[j - 1];
        }
      } else if j == |a| {
        assert b[0].QuotaHint? <==> false;
        assert ab[j] == b[0];
        if j > 0 {
          assert ab[j - 1] == a[|a| - 1];
        }
      } else {
        var i := j - |a|;
        assert b[i].QuotaHint? <==> i > 0 && QuotaFailure(b[i - 1]);
        assert ab[j] == b[i];
        assert ab[j - 1] == b[i - 1];
      }
    }
    if |b| == 0 {
      assert ab == a;
    } else {
      assert ab[|ab| - 1] == b[|b| - 1];
    }
  }

  /** The quota hint appears exactly after the failures that name the missing
      audio. */
  lemma {:induction false} FirstPassHints(outputDir: string, chapters: seq<Chapter>, k: nat, call: TitledCall,
                                          stop: nat -> bool, failed: seq<FailedEntry>, files: set<string>)
    requires k <= |chapters|
    ensures HintsPlaced(FirstPassFrom(outputDir, chapters, k, call, stop, failed, files).notes)
    decreases |chapters| - k
  {
    if k < |chapters| && !stop(k + 1) {
      if IsBlank(chapters[k].content) {
        var rest := FirstPassFrom(outputDir, chapters, k + 1, call, stop, failed, files);
        FirstPassHints(outputDir, chapters, k + 1, call, stop, failed, files);
        HintsConcat([Skipped(k + 1)], rest.notes);
      } else {
        var out := FileUtils.JoinPath(outputDir, Speech.ChapterFileName(k + 1));
        var c := call(chapters[k], out, files, k + 1);
        var failed' := if c.error.None? then failed else failed + [FailedEntry(k + 1, chapters[k], out)];
        var rest := FirstPassFrom(outputDir, chapters, k + 1, call, stop, failed', c.files);
        FirstPassHints(outputDir, chapters, k + 1, call, stop, failed', c.files);
        var notes := if c.error.None? then [Converted(k + 1)] else FailureNotes(k + 1, c.error.value.message);
        assert HintsPlaced(notes);
        HintsConcat(notes, rest.notes);
      }
    }
  }

  /** With a supported voice and a non-empty title, each call of the first
      pass reads the title first, with the title voice. */
  lemma FirstPassReadsTitle(voiceIndex: int, oracle: nat -> Speech.SpeechOracle, ch: Chapter, out: string,
                            files: set<string>, i: nat)
    requires voiceIndex in Speech.SupportedVoices && ch.title != ""
    ensures var r := FirstPassCall(voiceIndex, oracle)(ch, out, files, i);
      |r.actions| > 0 && r.actions[0] == Speech.Synthesize(ch.title, Speech.TitleVoice, "+0%", "+0%", Speech.TempTitleFile)
  {
    Speech.TextToSpeechFacts(ch.content, voiceIndex, 0, 0, out, 3, Some(ch.title), files, oracle(i));
    Speech.PlannedSyntheses(ch.content, Speech.SupportedVoices[voiceIndex], Speech.SignedPercent(0), Speech.SignedPercent(0),
                            out, Some(ch.title), oracle(i));
    assert Speech.SignedPercent(0) == "+0%";
  }

  // ---------------------------------------------------------------------
  // Second pass: `second_pass_conversion` and `convert_failed_chapters`
  // ---------------------------------------------------------------------

  /** What the second-pass button does: nothing to retry, a pass started with
      the voice read from the field, or a field `int()` cannot read. */
  datatype SecondStart = NothingFailed | SecondStarted(voiceIndex: int) | SecondVoiceInvalid

  function StartSecondPass(failed: seq<FailedEntry>, voiceField: string): (r: SecondStart)
    ensures r.NothingFailed? <==> failed == []
    ensures r.SecondStarted? <==> failed != [] && VoiceIndexOf(voiceField).Some?
    ensures r.SecondStarted? ==> Some(r.voiceIndex) == VoiceIndexOf(voiceField)
  {
    if failed == [] then NothingFailed
    else match VoiceIndexOf(voiceField)
      case Some(v) => SecondStarted(v)
      case None => SecondVoiceInvalid
  }

  /** With the voice field as the window first shows it, a second pass over
      some failures uses voice 4. */
  lemma SecondPassUsesVoiceFour(failed: seq<FailedEntry>)
    requires failed != []
    ensures StartSecondPass(failed, InitialVoiceField) == SecondStarted(4)
  {
    InitialVoiceIsFour();
  }

  /** `list.remove(x)`: the list without the first element equal to `x`. */
  function RemoveFirst<T(==)>(s: seq<T>, x: T): (r: seq<T>)
    requires x in s
    ensures |r| == |s| - 1
    ensures multiset(r) + multiset{x} == multiset(s)
    decreases |s|
  {
    if s[0] == x then
      assert s == [s[0]] + s[1..];
      s[1..]
    else
      assert s == [s[0]] + s[1..];
      [s[0]] + RemoveFirst(s[1..], x)
  }

  /** The element removed is the first one equal to `x`; the others keep
      their order. */
  lemma {:induction false} RemoveFirstAt<T>(s: seq<T>, i: nat)
    requires i < |s| && forall j :: 0 <= j < i ==> s[j] != s[i]
    ensures RemoveFirst(s, s[i]) == s[..i] + s[i + 1..]
    decreases i
  {
    if i > 0 {
      assert s[1..][i - 1] == s[i];
      RemoveFirstAt(s[1..], i - 1);
      assert s[1..][..i - 1] == s[1..i];
      assert s[..i] == [s[0]] + s[1..i];
      assert s[1..][i..] == s[i + 1..];
    }
  }

  lemma {:induction false} RemoveFirstSubseq<T>(s: seq<T>, x: T)
    requires x in s
    ensures Subseq(RemoveFirst(s, x), s)
    decreases |s|
  {
    if s[0] == x {
      SubseqRefl(s[1..]);
    } else {
      RemoveFirstSubseq(s[1..], x);
      var r := RemoveFirst(s, x);
      assert r[0] == s[0] && r[1..] == RemoveFirst(s[1..], x);
    }
  }

  /** What the second pass writes to the details pane for one entry. */
  datatype SecondNote = Reconverted(position: nat) | StillFailing(position: nat, message: string)

  /** `failed_chapters` after the pass, the entries the loop tried, those it
      converted, the notes, the actions of all calls and the files afterwards. */
  datatype SecondPass = SecondPass(remaining: seq<FailedEntry>, attempted: seq<FailedEntry>,
                                   succeeded: seq<FailedEntry>, notes: seq<SecondNote>,
                                   actions: seq<Speech.Action>, files: set<string>)

  /** One `text_to_speech` call of the second pass on an entry, given the files
      before it and the call's number. */
  type EntryCall = (FailedEntry, set<string>, nat) -> Speech.SpeechRun

  /** The call the second pass makes: the chapter's content into the entry's
      file, default rate and volume, three retries and no title. */
  function SecondPassCall(voiceIndex: int, oracle: nat -> Speech.SpeechOracle): EntryCall {
    (e: FailedEntry, f: set<string>, n: nat) =>
      Speech.TextToSpeech(e.chapter.content, voiceIndex, 0, 0, e.outputFile, 3, None, f, oracle(n))
  }

  /** Every call of the second pass reads no title and leaves no temporary
      file. */
  lemma SecondPassCallUntitled(voiceIndex: int, oracle: nat -> Speech.SpeechOracle, e: FailedEntry,
                               files: set<string>, n: nat)
    requires voiceIndex in Speech.SupportedVoices
    ensures Speech.UntitledCall(SecondPassCall(voiceIndex, oracle)(e, files, n))
  {
    Speech.CallWithoutTitle(e.chapter.content, voiceIndex, 0, 0, e.outputFile, files, oracle(n));
  }

  /** `convert_failed_chapters` as written. A Python `for` over a list reads
      the element at its own index, which grows by one each iteration, from the
      list as it is then; the loop ends once the index reaches the list's
      length. `list` is `failed_chapters` and `idx` that index; a converted
      entry is removed from the very list being iterated. The flag is read
      before iteration `idx + 1`, which is also the call's number. */
  function SecondPassFrom(list: seq<FailedEntry>, idx: nat, call: EntryCall, stop: nat -> bool,
                          files: set<string>): (r: SecondPass)
    ensures |r.remaining| + |r.succeeded| == |list|
    ensures |r.notes| == |r.attempted|
    decreases |list| - idx
  {
    if idx >= |list| || stop(idx + 1) then SecondPass(list, [], [], [], [], files)
    else
      var e := list[idx];
      var c := call(e, files, idx + 1);
      if c.error.None? then
        var rest := SecondPassFrom(RemoveFirst(list, e), idx + 1, call, stop, c.files);
        SecondPass(rest.remaining, [e] + rest.attempted, [e] + rest.succeeded,
                   [Reconverted(e.position)] + rest.notes, c.actions + rest.actions, rest.files)
      else
        var rest := SecondPassFrom(list, idx + 1, call, stop, c.files);
        SecondPass(rest.remaining, [e] + rest.attempted, rest.succeeded,
                   [StillFailing(e.position, c.error.value.message)] + rest.notes, c.actions + rest.actions, rest.files)
  }

  function SecondPassRun(failed: seq<FailedEntry>, voiceIndex: int, stop: nat -> bool,
                         oracle: nat -> Speech.SpeechOracle, files: set<string>): (r: SecondPass)
    ensures |r.remaining| + |r.succeeded| == |failed|
  {
    SecondPassFrom(failed, 0, SecondPassCall(voiceIndex, oracle), stop, files)
  }

  /** How the second pass ends: every chapter converted, or how many are left. */
  datatype Summary = AllConverted | NotConverted(count: nat)

  function SummaryOf(remaining: seq<FailedEntry>): (r: Summary)
    ensures r.AllConverted? <==> remaining == []
    ensures r.NotConverted? ==> r.count == |remaining| > 0
  {
    if remaining == [] then AllConverted else NotConverted(|remaining|)
  }

  /** Whatever the calls do, the entries left are the list's entries in their
      order minus those converted: no entry is lost or added. */
  lemma {:induction false} SecondPassAccounts(list: seq<FailedEntry>, idx: nat, call: EntryCall, stop: nat -> bool,
                                              files: set<string>)
    ensures var r := SecondPassFrom(list, idx, call, stop, files);
      Subseq(r.remaining, list) && multiset(r.remaining) + multiset(r.succeeded) == multiset(list)
    decreases |list| - idx
  {
    if idx >= |list| || stop(idx + 1) {
      SubseqRefl(list);
    } else {
      var e := list[idx];
      var c := call(e, files, idx + 1);
      if c.error.None? {
        var list' := RemoveFirst(list, e);
        var rest := SecondPassFrom(list', idx + 1, call, stop, c.files);
        SecondPassAccounts(list', idx + 1, call, stop, c.files);
        RemovalAccounted(list, e, rest.remaining, rest.succeeded);
      } else {
        SecondPassAccounts(list, idx + 1, call, stop, c.files);
      }
    }
  }

  lemma RemovalAccounted(list: seq<FailedEntry>, e: FailedEntry, remaining: seq<FailedEntry>, succeeded: seq<FailedEntry>)
    requires e in list
    requires Subseq(remaining, RemoveFirst(list, e))
    requires multiset(remaining) + multiset(succeeded) == multiset(RemoveFirst(list, e))
    ensures Subseq(remaining, list) && multiset(remaining) + multiset([e] + succeeded) == multiset(list)
  {
    RemoveFirstSubseq(list, e);
    SubseqTrans(remaining, RemoveFirst(list, e), list);
    assert multiset([e] + succeeded) == multiset{e} + multiset(succeeded);
  }

  /** Two failed chapters, every call of the second pass succeeding and no
      stop: the pass converts only the first and leaves the second in the
      list untried, because removing the first shifts the second under the
      loop's index. */
  lemma SecondPassSkipsNext(e1: FailedEntry, e2: FailedEntry, call: EntryCall, stop: nat -> bool,
                            files: set<string>)
    requires forall e, f, n :: call(e, f, n).error.None?
    requires forall n :: !stop(n)
    ensures var r := SecondPassFrom([e1, e2], 0, call, stop, files);
      r.attempted == [e1] && r.succeeded == [e1] && r.remaining == [e2] && SummaryOf(r.remaining) == NotConverted(1)
  {
    var c := call(e1, files, 1);
    assert c.error.None?;
    assert RemoveFirst([e1, e2], e1) == [e2];
    assert SecondPassFrom([e2], 1, call, stop, c.files).remaining == [e2];
  }

  /** After a success at index `idx` (the entry's first occurrence), the
      entry that followed it is shifted under the index just passed: the next
      entry the loop tries is the one two places on, and when the skipped
      entry was the last one the loop ends with it still in the list. */
  lemma SecondPassSkipsAfterSuccess(list: seq<FailedEntry>, idx: nat, call: EntryCall, stop: nat -> bool,
                                    files: set<string>)
    requires idx + 1 < |list| && forall j :: 0 <= j < idx ==> list[j] != list[idx]
    requires !stop(idx + 1) && call(list[idx], files, idx + 1).error.None?
    ensures var r := SecondPassFrom(list, idx, call, stop, files);
      && |r.attempted| >= 1 && r.attempted[0] == list[idx]
      && (|r.attempted| >= 2 ==> idx + 2 < |list| && r.attempted[1] == list[idx + 2])
      && (idx + 2 == |list| ==> |r.attempted| == 1 && list[idx + 1] in r.remaining)
  {
    var c := call(list[idx], files, idx + 1);
    var list' := RemoveFirst(list, list[idx]);
    RemoveFirstAt(list, idx);
    var rest := SecondPassFrom(list', idx + 1, call, stop, c.files);
    assert SecondPassFrom(list, idx, call, stop, files).attempted == [list[idx]] + rest.attempted;
    if |rest.attempted| >= 1 {
      assert idx + 1 < |list'| && !stop(idx + 2);
      assert list'[idx + 1] == list[idx + 2];
    }
    if idx + 2 == |list| {
      assert rest.remaining == list';
      assert list'[idx] == list[idx + 1];
    }
  }

  /** `convert_failed_chapters` as intended: the loop runs over a copy of
      `failed_chapters`, so every entry up to the stop flag is tried once, in
      order, and the entries converted are taken out of the list. */
  function SecondPassFixed(entries: seq<FailedEntry>, j: nat, call: EntryCall, stop: nat -> bool,
                           files: set<string>): (r: SecondPass)
    requires j <= |entries|
    ensures |r.remaining| + |r.succeeded| == |entries| - j
    ensures |r.notes| == |r.attempted|
    decreases |entries| - j
  {
    if j == |entries| || stop(j + 1) then SecondPass(entries[j..], [], [], [], [], files)
    else
      var e := entries[j];
      var c := call(e, files, j + 1);
      var rest := SecondPassFixed(entries, j + 1, call, stop, c.files);
      var note := if c.error.None? then Reconverted(e.position) else StillFailing(e.position, c.error.value.message);
      SecondPass(if c.error.None? then rest.remaining else [e] + rest.remaining, [e] + rest.attempted,
                 if c.error.None? then [e] + rest.succeeded else rest.succeeded,
                 [note] + rest.notes, c.actions + rest.actions, rest.files)
  }

  /** The flag was not set before any iteration from `j + 1` to the end. */
  predicate NeverStopped(stop: nat -> bool, j: nat, n: nat) {
    forall q :: j < q <= n ==> !stop(q)
  }

  /** The corrected pass tries the entries in order from `j` up to the stop
      flag, all of them when the flag stays clear. */
  lemma SecondPassFixedTries(entries: seq<FailedEntry>, j: nat, call: EntryCall, stop: nat -> bool,
                             files: set<string>)
    requires j <= |entries|
    ensures var r := SecondPassFixed(entries, j, call, stop, files);
      && j + |r.attempted| <= |entries| && r.attempted == entries[j..j + |r.attempted|]
      && (NeverStopped(stop, j, |entries|) ==> r.attempted == entries[j..])
  {
    SecondPassFixedPrefix(entries, j, call, stop, files);
    SecondPassFixedLength(entries, j, call, stop, files);
    var r := SecondPassFixed(entries, j, call, stop, files);
    assert r.attempted == entries[j..j + |r.attempted|];
  }

  lemma {:induction false} SecondPassFixedPrefix(entries: seq<FailedEntry>, j: nat, call: EntryCall, stop: nat -> bool,
                                                 files: set<string>)
    requires j <= |entries|
    ensures var r := SecondPassFixed(entries, j, call, stop, files);
      j + |r.attempted| <= |entries| && forall i :: 0 <= i < |r.attempted| ==> r.attempted[i] == entries[j + i]
    decreases |entries| - j
  {
    if j < |entries| && !stop(j + 1) {
      var c := call(entries[j], files, j + 1);
      SecondPassFixedPrefix(entries, j + 1, call, stop, c.files);
      SecondPassFixedStep(entries, j, call, stop, files);
    }
  }

  lemma SecondPassFixedStep(entries: seq<FailedEntry>, j: nat, call: EntryCall, stop: nat -> bool, files: set<string>)
    requires j < |entries| && !stop(j + 1)
    ensures var c := call(entries[j], files, j + 1);
      var r := SecondPassFixed(entries, j, call, stop, files);
      var rest := SecondPassFixed(entries, j + 1, call, stop, c.files);
      && r.attempted == [entries[j]] + rest.attempted
      && r.remaining == (if c.error.None? then rest.remaining else [entries[j]] + rest.remaining)
      && r.succeeded == (if c.error.None? then [entries[j]] + rest.succeeded else rest.succeeded)
  {
  }

  lemma {:induction false} SecondPassFixedLength(entries: seq<FailedEntry>, j: nat, call: EntryCall, stop: nat -> bool,
                                                 files: set<string>)
    requires j <= |entries|
    ensures NeverStopped(stop, j, |entries|) ==> |SecondPassFixed(entries, j, call, stop, files).attempted| == |entries| - j
    decreases |entries| - j
  {
    if j < |entries| && NeverStopped(stop, j, |entries|) {
      assert !stop(j + 1);
      var c := call(entries[j], files, j + 1);
      SecondPassFixedLength(entries, j + 1, call, stop, c.files);
      assert NeverStopped(stop, j + 1, |entries|);
    }
  }

  /** What the corrected pass leaves in the list is, in order, the entries it
      did not convert; what it converted it had tried. */
  lemma {:induction false} SecondPassFixedAccounts(entries: seq<FailedEntry>, j: nat, call: EntryCall, stop: nat -> bool,
                                                   files: set<string>)
    requires j <= |entries|
    ensures Accounted(SecondPassFixed(entries, j, call, stop, files), entries[j..])
    decreases |entries| - j
  {
    if j == |entries| || stop(j + 1) {
      SubseqRefl(entries[j..]);
    } else {
      var c := call(entries[j], files, j + 1);
      SecondPassFixedAccounts(entries, j + 1, call, stop, c.files);
      SecondPassFixedStep(entries, j, call, stop, files);
      AccountedCons(entries[j], c.error.None?, SecondPassFixed(entries, j, call, stop, files),
                    SecondPassFixed(entries, j + 1, call, stop, c.files), entries[j + 1..]);
      assert entries[j..] == [entries[j]] + entries[j + 1..];
    }
  }

  /** The entries left are, in order, those of `list` not converted, and the
      entries converted were tried, in order. */
  predicate Accounted(r: SecondPass, list: seq<FailedEntry>) {
    && Subseq(r.remaining, list) && Subseq(r.succeeded, r.attempted)
    && multiset(r.remaining) + multiset(r.succeeded) == multiset(list)
  }

  lemma AccountedCons(e: FailedEntry, ok: bool, r: SecondPass, rest: SecondPass, tail: seq<FailedEntry>)
    requires Accounted(rest, tail)
    requires r.attempted == [e] + rest.attempted
    requires r.remaining == if ok then rest.remaining else [e] + rest.remaining
    requires r.succeeded == if ok then [e] + rest.succeeded else rest.succeeded
    ensures Accounted(r, [e] + tail)
  {
    assert ([e] + tail)[1..] == tail;
    assert ([e] + rest.attempted)[1..] == rest.attempted;
    if ok {
      assert ([e] + rest.succeeded)[1..] == rest.succeeded;
    } else {
      assert ([e] + rest.remaining)[1..] == rest.remaining;
    }
  }

  /** When every call succeeds and the flag stays clear, the corrected pass
      converts every entry and leaves the list empty. */
  lemma {:induction false} SecondPassFixedConvertsAll(entries: seq<FailedEntry>, j: nat, call: EntryCall,
                                                      stop: nat -> bool, files: set<string>)
    requires j <= |entries|
    requires forall e, f, n :: call(e, f, n).error.None?
    requires forall n :: !stop(n)
    ensures var r := SecondPassFixed(entries, j, call, stop, files);
      r.remaining == [] && r.succeeded == entries[j..] && SummaryOf(r.remaining) == AllConverted
    decreases |entries| - j
  {
    if j < |entries| {
      var c := call(entries[j], files, j + 1);
      SecondPassFixedConvertsAll(entries, j + 1, call, stop, c.files);
      assert entries[j..] == [entries[j]] + entries[j + 1..];
    }
  }
}
