/** `text_to_speech.py`: the voice table, the signed rate and volume
    strings, the plan of actions `text_to_speech` carries out, and the
    module-level chapter loop. Speech synthesis, `ffmpeg` and the file
    system are not run: each synthesis, the concatenation and the move are
    actions whose outcome an oracle supplies, and the file system is the set
    of paths that exist. */
module Speech {
  import opened Wrappers
  import opened Text
  import FileUtils

  // ---------------------------------------------------------------------
  // Voices and request strings
  // ---------------------------------------------------------------------

  /** `SUPPORTED_VOICES`. */
  const SupportedVoices: map<int, string> := map[
    1 := "fr-FR-VivienneMultilingualNeural",
    2 := "fr-FR-DeniseNeural",
    3 := "fr-FR-EloiseNeural",
    4 := "fr-FR-RemyMultilingualNeural",
    5 := "fr-FR-HenriNeural"]

  /** The voice every chapter title is read with, whatever voice was chosen. */
  const TitleVoice: string := "fr-FR-HenriNeural"

  const TempTitleFile: string := "temp_title.mp3"
  const TempContentFile: string := "temp_content.mp3"

  /** The voice indices are exactly 1 to 5. */
  lemma SupportedVoiceIndices(i: int)
    ensures i in SupportedVoices <==> 1 <= i <= 5
  {
  }

  /** The rate and volume argument `f"+{n}%"` for `n >= 0`, `f"{n}%"` (which
      carries the minus sign) otherwise. */
  function SignedPercent(n: int): (r: string)
    ensures |r| >= 3 && r[|r| - 1] == '%'
    ensures r[0] == '+' <==> n >= 0
    ensures r[0] == '-' <==> n < 0
  {
    (if n >= 0 then "+" else "") + IntToString(n) + "%"
  }

  /** Reading the number in front of `%` gives back `n`: the string carries
      the value, not only its sign. */
  lemma SignedPercentRoundTrip(n: int)
    ensures var r := SignedPercent(n); ParseInt(r[..|r| - 1]) == Some(n)
  {
    var r := SignedPercent(n);
    var t := r[..|r| - 1];
    if n >= 0 {
      var d := NatToString(n);
      NatToStringRoundTrip(n);
      assert t == "+" + d;
      NumeralCharNotSpace(t[0]);
      NumeralCharNotSpace(t[|t| - 1]);
      StripUnchanged(t);
      assert t[1..] == d;
    } else {
      assert t == IntToString(n);
      IntToStringRoundTrip(n);
    }
  }

  lemma SignedPercentInjective(m: int, n: int)
    ensures SignedPercent(m) == SignedPercent(n) ==> m == n
  {
    SignedPercentRoundTrip(m);
    SignedPercentRoundTrip(n);
  }

  /** The message of the `ValueError` for an unsupported index; the key list
      prints as `[1, 2, 3, 4, 5]`. */
  function UnsupportedVoiceMessage(voiceIndex: int): string {
    "Voice index '" + IntToString(voiceIndex) + "' is not supported. Choose from [1, 2, 3, 4, 5]."
  }

  // ---------------------------------------------------------------------
  // text_to_speech as a plan of actions
  // ---------------------------------------------------------------------

  datatype Action =
    | Synthesize(text: string, voice: string, rate: string, volume: string, target: string)
    | Concatenate(first: string, second: string, output: string)
    | Replace(source: string, target: string)
    | Remove(path: string)

  /** The exceptions `text_to_speech` lets out, each with its `str(e)`. */
  datatype Error =
    | ValueError(message: string)
    | SynthesisError(message: string)
    | ReplaceError(message: string)

  /** What a `Communicate.save` did: it wrote its file, or it raised, with or
      without leaving a (partial) file behind. */
  datatype SaveOutcome = Saved | SaveFailed(leavesFile: bool, message: string)

  /** The outcomes of the external steps of one call: the title save, the body
      save, `os.replace` (`Some(message)` when it raises), and whether the
      `ffmpeg` command, whose exit status is ignored, wrote the output. */
  datatype SpeechOracle = SpeechOracle(
    titleSave: SaveOutcome,
    contentSave: SaveOutcome,
    replaceError: Option<string>,
    ffmpegWrites: bool)

  /** The actions taken, the paths that exist afterwards, and the exception
      raised, if any. */
  datatype SpeechRun = SpeechRun(actions: seq<Action>, files: set<string>, error: Option<Error>)

  /** `if chapter_title:` — a title is used only when it is a non-empty string. */
  function TitleIfTruthy(chapterTitle: Option<string>): (r: Option<string>)
    ensures r.Some? <==> chapterTitle.Some? && chapterTitle.value != ""
    ensures r.Some? ==> r == chapterTitle
  {
    match chapterTitle
    case Some(t) => if t != "" then Some(t) else None
    case None => None
  }

  /** One `save` with its outcome. */
  function Save(a: Action, outcome: SaveOutcome, files: set<string>): (r: SpeechRun)
    requires a.Synthesize?
    ensures r.actions == [a]
    ensures r.error.None? <==> outcome.Saved?
    ensures outcome.Saved? ==> r.files == files + {a.target}
    ensures r.files - {a.target} == files - {a.target}
  {
    match outcome
    case Saved => SpeechRun([a], files + {a.target}, None)
    case SaveFailed(leaves, msg) =>
      SpeechRun([a], if leaves then files + {a.target} else files, Some(SynthesisError(msg)))
  }

  /** The `try` block: title synthesis when there is a title, body
      synthesis, then either the concatenation of title and body or the move
      of the body to the output. The first exception ends the block. */
  function Attempt(text: string, voice: string, rateStr: string, volumeStr: string, outputFile: string,
                   title: Option<string>, files: set<string>, oracle: SpeechOracle): SpeechRun
  {
    var t :=
      if title.Some? then Save(Synthesize(title.value, TitleVoice, rateStr, volumeStr, TempTitleFile), oracle.titleSave, files)
      else SpeechRun([], files, None);
    if t.error.Some? then t
    else
      var c := Save(Synthesize(text, voice, rateStr, volumeStr, TempContentFile), oracle.contentSave, t.files);
      var acts := t.actions + c.actions;
      if c.error.Some? then SpeechRun(acts, c.files, c.error)
      else if title.Some? then
        SpeechRun(acts + [Concatenate(TempTitleFile, TempContentFile, outputFile)],
                  if oracle.ffmpegWrites then c.files + {outputFile} else c.files, None)
      else
        match oracle.replaceError
        case Some(msg) => SpeechRun(acts + [Replace(TempContentFile, outputFile)], c.files, Some(ReplaceError(msg)))
        case None => SpeechRun(acts + [Replace(TempContentFile, outputFile)], c.files - {TempContentFile} + {outputFile}, None)
  }

  /** The `finally` block: each temporary file that exists is removed. */
  function Cleanup(files: set<string>): (r: (seq<Action>, set<string>))
    ensures r.1 == files - {TempTitleFile, TempContentFile}
    ensures forall a :: a in r.0 ==> a.Remove? && a.path in files && a.path in {TempTitleFile, TempContentFile}
  {
    var a1 := if TempTitleFile in files then [Remove(TempTitleFile)] else [];
    var a2 := if TempContentFile in files then [Remove(TempContentFile)] else [];
    (a1 + a2, files - {TempTitleFile} - {TempContentFile})
  }

  /** `text_to_speech(text, voice_index, rate, volume, output_file, max_retries, chapter_title)`:
      the index is checked before anything is done, then the `try` block
      runs, its exception (if any) is raised again unchanged, and the
      `finally` block removes the temporary files. */
  function TextToSpeech(text: string, voiceIndex: int, rate: int, volume: int, outputFile: string,
                        maxRetries: int, chapterTitle: Option<string>,
                        files: set<string>, oracle: SpeechOracle): SpeechRun
  {
    if voiceIndex !in SupportedVoices then
      SpeechRun([], files, Some(ValueError(UnsupportedVoiceMessage(voiceIndex))))
    else
      var body := Attempt(text, SupportedVoices[voiceIndex], SignedPercent(rate), SignedPercent(volume),
                          outputFile, TitleIfTruthy(chapterTitle), files, oracle);
      var cleanup := Cleanup(body.files);
      SpeechRun(body.actions + cleanup.0, cleanup.1, body.error)
  }

  /** The actions of the `try` block stated without the block's control
      flow: the title synthesis when there is a title; the body synthesis
      unless the title save raised; the concatenation (with a title) or the
      move (without one) unless a save raised. */
  function PlannedActions(text: string, voice: string, rateStr: string, volumeStr: string, outputFile: string,
                          title: Option<string>, oracle: SpeechOracle): seq<Action>
  {
    var ta := if title.Some? then [Synthesize(title.value, TitleVoice, rateStr, volumeStr, TempTitleFile)] else [];
    var ca := Synthesize(text, voice, rateStr, volumeStr, TempContentFile);
    var last := if title.Some? then Concatenate(TempTitleFile, TempContentFile, outputFile) else Replace(TempContentFile, outputFile);
    if title.Some? && !oracle.titleSave.Saved? then ta
    else if !oracle.contentSave.Saved? then ta + [ca]
    else ta + [ca, last]
  }

  /** The steps that must succeed for the `try` block to finish. */
  predicate AllStepsSucceed(title: Option<string>, oracle: SpeechOracle) {
    && (title.Some? ==> oracle.titleSave.Saved?)
    && oracle.contentSave.Saved?
    && (title.None? ==> oracle.replaceError.None?)
  }

  /** The `try` block follows the plan, fails exactly when a step it reaches
      fails, touches no path but the temporary files and the output, and on
      success has written the output (by the move, or by `ffmpeg` when it
      did). */
  lemma AttemptFollowsPlan(text: string, voice: string, rateStr: string, volumeStr: string, outputFile: string,
                           title: Option<string>, files: set<string>, oracle: SpeechOracle)
    ensures var r := Attempt(text, voice, rateStr, volumeStr, outputFile, title, files, oracle);
      && r.actions == PlannedActions(text, voice, rateStr, volumeStr, outputFile, title, oracle)
      && (r.error.None? <==> AllStepsSucceed(title, oracle))
      && r.files - {TempTitleFile, TempContentFile, outputFile} == files - {TempTitleFile, TempContentFile, outputFile}
      && (r.error.None? && (title.None? || oracle.ffmpegWrites) ==> outputFile in r.files)
  {
  }

  /** An unsupported index raises `ValueError` before any action, leaving the
      files as they were; a supported one never raises `ValueError`. */
  lemma InvalidVoiceRejected(text: string, voiceIndex: int, rate: int, volume: int, outputFile: string,
                             maxRetries: int, chapterTitle: Option<string>, files: set<string>, oracle: SpeechOracle)
    ensures var r := TextToSpeech(text, voiceIndex, rate, volume, outputFile, maxRetries, chapterTitle, files, oracle);
      && (voiceIndex !in SupportedVoices ==>
            r.actions == [] && r.files == files && r.error == Some(ValueError(UnsupportedVoiceMessage(voiceIndex))))
      && (r.error.Some? && r.error.value.ValueError? <==> voiceIndex !in SupportedVoices)
  {
  }

  /** For a supported index: the actions are the plan followed by the
      removal of the temporary files that exist; the call succeeds exactly
      when every step it reaches succeeds; afterwards neither temporary file
      exists and no path other than those and the output has changed. */
  lemma TextToSpeechFacts(text: string, voiceIndex: int, rate: int, volume: int, outputFile: string,
                          maxRetries: int, chapterTitle: Option<string>, files: set<string>, oracle: SpeechOracle)
    requires voiceIndex in SupportedVoices
    ensures var r := TextToSpeech(text, voiceIndex, rate, volume, outputFile, maxRetries, chapterTitle, files, oracle);
      var title := TitleIfTruthy(chapterTitle);
      var plan := PlannedActions(text, SupportedVoices[voiceIndex], SignedPercent(rate), SignedPercent(volume), outputFile, title, oracle);
      && |plan| <= |r.actions| && r.actions[..|plan|] == plan
      && (forall i :: |plan| <= i < |r.actions| ==> r.actions[i].Remove?)
      && (r.error.None? <==> AllStepsSucceed(title, oracle))
      && TempTitleFile !in r.files && TempContentFile !in r.files
      && r.files - {outputFile} == files - {TempTitleFile, TempContentFile, outputFile}
      && ((r.error.None? && (title.None? || oracle.ffmpegWrites) && outputFile !in {TempTitleFile, TempContentFile})
          ==> outputFile in r.files)
  {
    var title := TitleIfTruthy(chapterTitle);
    var body := Attempt(text, SupportedVoices[voiceIndex], SignedPercent(rate), SignedPercent(volume), outputFile, title, files, oracle);
    AttemptFollowsPlan(text, SupportedVoices[voiceIndex], SignedPercent(rate), SignedPercent(volume), outputFile, title, files, oracle);
    var cleanup := Cleanup(body.files);
    assert (body.actions + cleanup.0)[..|body.actions|] == body.actions;
    assert forall i :: |body.actions| <= i < |body.actions + cleanup.0| ==> (body.actions + cleanup.0)[i] in cleanup.0;
  }

  /** The synthesis requests of the plan: with a title, the title is read
      first with the title voice; the body is read with the chosen voice;
      there are at most two requests, one per temporary file, so nothing is
      retried whatever `max_retries` is. */
  lemma PlannedSyntheses(text: string, voice: string, rateStr: string, volumeStr: string, outputFile: string,
                         title: Option<string>, oracle: SpeechOracle)
    ensures var plan := PlannedActions(text, voice, rateStr, volumeStr, outputFile, title, oracle);
      && 1 <= |plan| <= 3
      && (title.Some? ==> plan[0] == Synthesize(title.value, TitleVoice, rateStr, volumeStr, TempTitleFile))
      && (title.None? ==> plan[0] == Synthesize(text, voice, rateStr, volumeStr, TempContentFile))
      && (title.Some? && |plan| >= 2 ==> plan[1] == Synthesize(text, voice, rateStr, volumeStr, TempContentFile))
      && (forall i :: 0 <= i < |plan| && plan[i].Synthesize? ==> i <= 1 && (i == 1 ==> title.Some?))
      && (|plan| == 3 ==> plan[2] == Concatenate(TempTitleFile, TempContentFile, outputFile))
      && (title.None? && |plan| == 2 ==> plan[1] == Replace(TempContentFile, outputFile))
  {
  }

  /** `max_retries` is accepted and never used. */
  lemma MaxRetriesUnused(text: string, voiceIndex: int, rate: int, volume: int, outputFile: string,
                         m1: int, m2: int, chapterTitle: Option<string>, files: set<string>, oracle: SpeechOracle)
    ensures TextToSpeech(text, voiceIndex, rate, volume, outputFile, m1, chapterTitle, files, oracle)
         == TextToSpeech(text, voiceIndex, rate, volume, outputFile, m2, chapterTitle, files, oracle)
  {
  }

  // ---------------------------------------------------------------------
  // The module-level convert_chapters
  // ---------------------------------------------------------------------

  /** `f"chapitre_{i}.mp3"`. */
  function ChapterFileName(i: nat): (r: string)
    ensures forall k :: 0 <= k < |r| ==> r[k] != '/'
  {
    "chapitre_" + NatToString(i) + ".mp3"
  }

  /** Distinct chapter positions get distinct output paths in one directory. */
  lemma ChapterOutputsDistinct(dir: string, i: nat, j: nat)
    ensures FileUtils.JoinPath(dir, ChapterFileName(i)) == FileUtils.JoinPath(dir, ChapterFileName(j)) ==> i == j
  {
    if FileUtils.JoinPath(dir, ChapterFileName(i)) == FileUtils.JoinPath(dir, ChapterFileName(j)) {
      FileUtils.BasenameOfJoin(dir, ChapterFileName(i));
      FileUtils.BasenameOfJoin(dir, ChapterFileName(j));
      var a := NatToString(i);
      var b := NatToString(j);
      assert ChapterFileName(i) == ChapterFileName(j);
      assert |a| == |b|;
      assert a == ChapterFileName(i)[9..9 + |a|];
      assert b == ChapterFileName(j)[9..9 + |b|];
      NatToStringInjective(i, j);
    }
  }

  /** The calls of the loop and where it stopped: the 1-based positions
      converted and the output path of each, all actions, the files
      afterwards, and the exception that ended the loop, if any. */
  datatype BatchRun = BatchRun(converted: seq<nat>, outputs: seq<string>, actions: seq<Action>,
                               files: set<string>, error: Option<Error>)

  /** One call of `text_to_speech` as the loop makes it, from the chapter
      text, the output path, the files before the call and the 1-based
      position of the chapter. */
  type ChapterCall = (string, string, set<string>, nat) -> SpeechRun

  /** The call the loop makes: the chosen voice, rate and volume, three
      retries, no title, and the outcomes `oracle(i)` for position `i`. */
  function CallFor(voiceIndex: int, rate: int, volume: int, oracle: nat -> SpeechOracle): ChapterCall {
    (text: string, out: string, files: set<string>, i: nat) =>
      TextToSpeech(text, voiceIndex, rate, volume, out, 3, None, files, oracle(i))
  }

  /** The 1-based positions after `k` whose content is not blank, in order. */
  function NonBlankPositions(contents: seq<string>, k: nat): (r: seq<nat>)
    requires k <= |contents|
    ensures forall j :: 0 <= j < |r| ==> k < r[j] <= |contents| && !IsBlank(contents[r[j] - 1])
    ensures forall j, m :: 0 <= j < m < |r| ==> r[j] < r[m]
    ensures forall p :: k < p <= |contents| && !IsBlank(contents[p - 1]) ==> p in r
    decreases |contents| - k
  {
    if k == |contents| then []
    else (if IsBlank(contents[k]) then [] else [k + 1]) + NonBlankPositions(contents, k + 1)
  }

  /** The loop of `convert_chapters` from position `k` on: blank chapters
      are skipped, each other chapter `i` is converted into
      `output_dir/chapitre_<i>.mp3`, and the first exception ends the loop
      and propagates. */
  function ConvertFrom(outputDir: string, contents: seq<string>, k: nat, call: ChapterCall, files: set<string>): (r: BatchRun)
    requires k <= |contents|
    ensures |r.outputs| == |r.converted|
    ensures forall j :: 0 <= j < |r.outputs| ==> r.outputs[j] == FileUtils.JoinPath(outputDir, ChapterFileName(r.converted[j]))
    decreases |contents| - k
  {
    if k == |contents| then BatchRun([], [], [], files, None)
    else if IsBlank(contents[k]) then ConvertFrom(outputDir, contents, k + 1, call, files)
    else
      var out := FileUtils.JoinPath(outputDir, ChapterFileName(k + 1));
      var c := call(contents[k], out, files, k + 1);
      if c.error.Some? then BatchRun([k + 1], [out], c.actions, c.files, c.error)
      else
        var rest := ConvertFrom(outputDir, contents, k + 1, call, c.files);
        BatchRun([k + 1] + rest.converted, [out] + rest.outputs, c.actions + rest.actions, rest.files, rest.error)
  }

  /** `convert_chapters(output_dir, chapters, voice_index, rate, volume)`:
      every output is the chapter file of its position in `output_dir`. */
  function ConvertChapters(outputDir: string, contents: seq<string>, voiceIndex: int, rate: int, volume: int,
                           files: set<string>, oracle: nat -> SpeechOracle): (r: BatchRun)
    ensures |r.outputs| == |r.converted|
    ensures forall j :: 0 <= j < |r.outputs| ==> r.outputs[j] == FileUtils.JoinPath(outputDir, ChapterFileName(r.converted[j]))
  {
    ConvertFrom(outputDir, contents, 0, CallFor(voiceIndex, rate, volume, oracle), files)
  }

  /** The positions `converted` are a prefix of the non-blank positions
      `nb`, all of them when nothing raised, and at least one when
      something did (the call that raised). */
  predicate FollowsPositions(r: BatchRun, nb: seq<nat>) {
    && |r.converted| <= |nb|
    && r.converted == nb[..|r.converted|]
    && (r.error.None? ==> r.converted == nb)
    && (r.error.Some? ==> |r.converted| > 0)
  }

  /** The loop converts the non-blank chapters in order, skipping the blank
      ones, and stops at the first call that raises. */
  lemma {:induction false} ConvertChaptersOrder(outputDir: string, contents: seq<string>, k: nat, call: ChapterCall,
                                                files: set<string>)
    requires k <= |contents|
    ensures FollowsPositions(ConvertFrom(outputDir, contents, k, call, files), NonBlankPositions(contents, k))
    decreases |contents| - k
  {
    if k < |contents| {
      if IsBlank(contents[k]) {
        ConvertChaptersOrder(outputDir, contents, k + 1, call, files);
      } else {
        var out := FileUtils.JoinPath(outputDir, ChapterFileName(k + 1));
        var c := call(contents[k], out, files, k + 1);
        var nb := NonBlankPositions(contents, k + 1);
        assert NonBlankPositions(contents, k) == [k + 1] + nb;
        if c.error.None? {
          var rest := ConvertFrom(outputDir, contents, k + 1, call, c.files);
          ConvertChaptersOrder(outputDir, contents, k + 1, call, c.files);
          FollowsCons(k + 1, out, c.actions, rest, nb);
        } else {
          FollowsFirst(k + 1, out, c, nb);
        }
      }
    }
  }

  /** A converted chapter before a run that follows the later positions. */
  lemma FollowsCons(x: nat, out: string, acts: seq<Action>, rest: BatchRun, nb: seq<nat>)
    requires FollowsPositions(rest, nb)
    ensures FollowsPositions(BatchRun([x] + rest.converted, [out] + rest.outputs, acts + rest.actions, rest.files, rest.error),
                             [x] + nb)
  {
    assert [x] + rest.converted == ([x] + nb)[..|rest.converted| + 1];
  }

  /** A first call that raises ends the loop there. */
  lemma FollowsFirst(x: nat, out: string, c: SpeechRun, nb: seq<nat>)
    requires c.error.Some?
    ensures FollowsPositions(BatchRun([x], [out], c.actions, c.files, c.error), [x] + nb)
  {
    assert ([x] + nb)[..1] == [x];
  }

  /** A call that reads no title and leaves no temporary file behind. */
  predicate UntitledCall(c: SpeechRun) {
    && (forall a :: a in c.actions ==> !a.Concatenate? && (a.Synthesize? ==> a.target == TempContentFile))
    && TempTitleFile !in c.files && TempContentFile !in c.files
  }

  /** When every call reads no title, neither does the loop; once a
      chapter has been converted no temporary file remains. */
  lemma {:induction false} LoopCalls(outputDir: string, contents: seq<string>, k: nat, call: ChapterCall, files: set<string>)
    requires k <= |contents|
    requires forall t, o, f, i :: UntitledCall(call(t, o, f, i))
    ensures var r := ConvertFrom(outputDir, contents, k, call, files);
      && (forall a :: a in r.actions ==> !a.Concatenate? && (a.Synthesize? ==> a.target == TempContentFile))
      && (r.converted != [] ==> TempTitleFile !in r.files && TempContentFile !in r.files)
    decreases |contents| - k
  {
    if k < |contents| {
      if IsBlank(contents[k]) {
        LoopCalls(outputDir, contents, k + 1, call, files);
      } else {
        var out := FileUtils.JoinPath(outputDir, ChapterFileName(k + 1));
        var c := call(contents[k], out, files, k + 1);
        assert UntitledCall(c);
        if c.error.None? {
          var rest := ConvertFrom(outputDir, contents, k + 1, call, c.files);
          LoopCalls(outputDir, contents, k + 1, call, c.files);
          NoCallKeepsFiles(outputDir, contents, k + 1, call, c.files);
          assert forall a :: a in c.actions + rest.actions ==> a in c.actions || a in rest.actions;
        }
      }
    }
  }

  /** A loop that converts nothing changes no file. */
  lemma {:induction false} NoCallKeepsFiles(outputDir: string, contents: seq<string>, k: nat, call: ChapterCall,
                                            files: set<string>)
    requires k <= |contents|
    ensures var r := ConvertFrom(outputDir, contents, k, call, files);
      r.converted == [] ==> r.files == files && r.actions == []
    decreases |contents| - k
  {
    if k < |contents| && IsBlank(contents[k]) {
      NoCallKeepsFiles(outputDir, contents, k + 1, call, files);
    }
  }

  /** One call without a title: no concatenation, only the body synthesis,
      and no temporary file afterwards. */
  lemma CallWithoutTitle(text: string, voiceIndex: int, rate: int, volume: int, outputFile: string,
                         files: set<string>, oracle: SpeechOracle)
    requires voiceIndex in SupportedVoices
    ensures UntitledCall(TextToSpeech(text, voiceIndex, rate, volume, outputFile, 3, None, files, oracle))
  {
    TextToSpeechFacts(text, voiceIndex, rate, volume, outputFile, 3, None, files, oracle);
    var r := TextToSpeech(text, voiceIndex, rate, volume, outputFile, 3, None, files, oracle);
    var plan := PlannedActions(text, SupportedVoices[voiceIndex], SignedPercent(rate), SignedPercent(volume), outputFile, None, oracle);
    PlannedSyntheses(text, SupportedVoices[voiceIndex], SignedPercent(rate), SignedPercent(volume), outputFile, None, oracle);
    forall a | a in r.actions
      ensures !a.Concatenate? && (a.Synthesize? ==> a.target == TempContentFile)
    {
      var i :| 0 <= i < |r.actions| && r.actions[i] == a;
      if i < |plan| {
        assert a == plan[i];
      }
    }
  }

  /** With a supported voice, `convert_chapters` never reads a title: no
      concatenation happens and the only synthesis target is the body
      file; once a chapter has been converted no temporary file remains. */
  lemma ConvertChaptersCalls(outputDir: string, contents: seq<string>, voiceIndex: int, rate: int, volume: int,
                             files: set<string>, oracle: nat -> SpeechOracle)
    requires voiceIndex in SupportedVoices
    ensures var r := ConvertChapters(outputDir, contents, voiceIndex, rate, volume, files, oracle);
      && (forall a :: a in r.actions ==> !a.Concatenate? && (a.Synthesize? ==> a.target == TempContentFile))
      && (r.converted != [] ==> TempTitleFile !in r.files && TempContentFile !in r.files)
  {
    var call := CallFor(voiceIndex, rate, volume, oracle);
    forall t, o, f, i
      ensures UntitledCall(call(t, o, f, i))
    {
      CallWithoutTitle(t, voiceIndex, rate, volume, o, f, oracle(i));
    }
    LoopCalls(outputDir, contents, 0, call, files);
  }
}
