/** Sorting of real numbers, as `numpy.median` needs it. */
module RealSort {
  predicate Sorted(s: seq<real>) {
    forall i, j :: 0 <= i < j < |s| ==> s[i] <= s[j]
  }

  /** `x` put into the sorted sequence `s` before its first element that is
      not smaller. */
  function Insert(x: real, s: seq<real>): (r: seq<real>)
    requires Sorted(s)
    ensures Sorted(r)
    ensures multiset(r) == multiset(s) + multiset{x}
    decreases |s|
  {
    if |s| == 0 then [x]
    else if x <= s[0] then [x] + s
    else
      var t := Insert(x, s[1..]);
      InsertAbove(x, s, t);
      [s[0]] + t
  }

  /** Every element of `t`, a rearrangement of `s[1..]` and `x > s[0]`, is at
      least `s[0]`, and adding `s[0]` back gives the elements of `s` and `x`. */
  lemma InsertAbove(x: real, s: seq<real>, t: seq<real>)
    requires Sorted(s) && |s| > 0 && s[0] < x
    requires multiset(t) == multiset(s[1..]) + multiset{x}
    ensures forall k :: 0 <= k < |t| ==> s[0] <= t[k]
    ensures multiset([s[0]] + t) == multiset(s) + multiset{x}
  {
    forall k | 0 <= k < |t|
      ensures s[0] <= t[k]
    {
      assert t[k] in multiset(t);
      if t[k] != x {
        assert t[k] in multiset(s[1..]);
        var j :| 0 <= j < |s[1..]| && s[1..][j] == t[k];
        assert s[j + 1] == t[k];
      }
    }
    assert s == [s[0]] + s[1..];
  }

  /** Insertion sort: the sorted rearrangement of `s`. */
  function Sort(s: seq<real>): (r: seq<real>)
    ensures Sorted(r)
    ensures multiset(r) == multiset(s)
    decreases |s|
  {
    if |s| == 0 then []
    else
      var r := Insert(s[|s| - 1], Sort(s[..|s| - 1]));
      assert s == s[..|s| - 1] + [s[|s| - 1]];
      r
  }

  /** The first element of a sorted rearrangement is at most every element
      of the original, and the last at least every element. */
  lemma SortedEnds(s: seq<real>, t: seq<real>)
    requires Sorted(t) && multiset(t) == multiset(s) && |s| > 0
    ensures |t| == |s|
    ensures forall i :: 0 <= i < |s| ==> t[0] <= s[i] <= t[|t| - 1]
    ensures t[0] in s && t[|t| - 1] in s
  {
    assert |t| == |multiset(t)| == |multiset(s)| == |s|;
    forall i | 0 <= i < |s|
      ensures t[0] <= s[i] <= t[|t| - 1]
    {
      assert s[i] in multiset(t);
      var j :| 0 <= j < |t| && t[j] == s[i];
    }
    assert t[0] in multiset(s);
    assert t[|t| - 1] in multiset(s);
  }
}

/** `audio_quality_checker.py`: the verdict and history bookkeeping of
    `AudioQualityChecker.check_audio_quality` and the summary of
    `get_statistics`. Transcription and sentence embeddings are not run: the
    transcription is an oracle and the cosine similarity against the fixed
    French reference sentence is a function of the transcription only. */
module Quality {
  import opened Wrappers
  import FileUtils
  import RealSort

  /** The default `threshold` of the constructor. */
  const DefaultThreshold: real := 0.85

  /** One entry of `scores_history`. */
  datatype ScoreRecord = ScoreRecord(
    originalText: Option<string>,
    transcribedText: string,
    similarityScore: real,
    passedThreshold: bool,
    audioFile: string)

  /** The state of an `AudioQualityChecker` that the checks use. */
  datatype Checker = Checker(threshold: real, history: seq<ScoreRecord>)

  /** `AudioQualityChecker(threshold)`: no score recorded yet. */
  function NewChecker(threshold: real): (c: Checker)
    ensures c.threshold == threshold && c.history == []
  {
    Checker(threshold, [])
  }

  /** What Whisper did with the audio file: it raised, or it returned a text. */
  datatype Transcription = TranscriptionFails | Transcribed(text: string)

  /** The returned verdict and the checker afterwards. */
  datatype Check = Check(checker: Checker, verdict: bool)

  /** The record a scored check appends. Its `passed_threshold` is the
      comparison of the score with the threshold. */
  function RecordOf(c: Checker, audioPath: string, sentence: Option<string>, transcribed: string, score: real): ScoreRecord {
    ScoreRecord(sentence, transcribed, score, score >= c.threshold, FileUtils.Basename(audioPath))
  }

  /** `check_audio_quality(audio_file_path, sentence_text)` as written.
      `similarity(t)` is the cosine similarity of the embedding of `t` with
      the reference embedding, `None` when encoding raises. When the score
      is a numpy scalar (`numpyScore`), `passed_threshold` is a numpy
      boolean, which `json.dumps` refuses: the exception is caught after the
      record was appended and the call returns `False`. Every exception is
      caught and gives `False`. */
  function CheckAudioQuality(c: Checker, audioPath: string, sentence: Option<string>, transcription: Transcription,
                             similarity: string -> Option<real>, numpyScore: bool): (r: Check)
    ensures r.checker.threshold == c.threshold
    ensures |c.history| <= |r.checker.history| <= |c.history| + 1
    ensures r.checker.history[..|c.history|] == c.history
    ensures |r.checker.history| > |c.history| <==> transcription.Transcribed? && similarity(transcription.text).Some?
    ensures r.verdict ==> !numpyScore && |r.checker.history| > |c.history|
  {
    match transcription
    case TranscriptionFails => Check(c, false)
    case Transcribed(t) =>
      match similarity(t)
      case None => Check(c, false)
      case Some(score) =>
        var after := c.(history := c.history + [RecordOf(c, audioPath, sentence, t, score)]);
        if numpyScore then Check(after, false) else Check(after, score >= c.threshold)
  }

  /** `check_audio_quality` with `passed_threshold` stored as a Python
      boolean, so that logging the record cannot raise. */
  function CheckAudioQualityFixed(c: Checker, audioPath: string, sentence: Option<string>, transcription: Transcription,
                                  similarity: string -> Option<real>): (r: Check)
    ensures r.checker.threshold == c.threshold
    ensures |c.history| <= |r.checker.history| <= |c.history| + 1
    ensures r.checker.history[..|c.history|] == c.history
  {
    match transcription
    case TranscriptionFails => Check(c, false)
    case Transcribed(t) =>
      match similarity(t)
      case None => Check(c, false)
      case Some(score) =>
        Check(c.(history := c.history + [RecordOf(c, audioPath, sentence, t, score)]), score >= c.threshold)
  }

  /** The corrected check passes exactly when a score was computed and
      reaches the threshold; the record it appends carries the same verdict,
      the score, the transcription, the sentence and the file's base name. */
  lemma FixedVerdict(c: Checker, audioPath: string, sentence: Option<string>, transcription: Transcription,
                     similarity: string -> Option<real>)
    ensures var r := CheckAudioQualityFixed(c, audioPath, sentence, transcription, similarity);
      && (r.verdict <==> transcription.Transcribed? && similarity(transcription.text).Some?
                         && similarity(transcription.text).value >= c.threshold)
      && (|r.checker.history| > |c.history| ==>
            var rec := r.checker.history[|c.history|];
            && transcription.Transcribed? && similarity(transcription.text).Some?
            && rec.passedThreshold == r.verdict
            && rec.similarityScore == similarity(transcription.text).value
            && rec.transcribedText == transcription.text
            && rec.originalText == sentence
            && rec.audioFile == FileUtils.Basename(audioPath))
  {
  }

  /** An exception in transcription or encoding returns `False` and records
      nothing. */
  lemma ExceptionReturnsFalse(c: Checker, audioPath: string, sentence: Option<string>, transcription: Transcription,
                              similarity: string -> Option<real>, numpyScore: bool)
    requires transcription.TranscriptionFails? || similarity(transcription.text).None?
    ensures CheckAudioQuality(c, audioPath, sentence, transcription, similarity, numpyScore) == Check(c, false)
    ensures CheckAudioQualityFixed(c, audioPath, sentence, transcription, similarity) == Check(c, false)
  {
  }

  /** The check as written passes exactly when a score was computed, it is
      not a numpy scalar, and it reaches the threshold. */
  lemma AsWrittenVerdict(c: Checker, audioPath: string, sentence: Option<string>, transcription: Transcription,
                         similarity: string -> Option<real>, numpyScore: bool)
    ensures var r := CheckAudioQuality(c, audioPath, sentence, transcription, similarity, numpyScore);
      r.verdict <==> !numpyScore && transcription.Transcribed? && similarity(transcription.text).Some?
                     && similarity(transcription.text).value >= c.threshold
  {
  }

  /** When nothing raises after the record is appended, the verdict returned
      is the `passed_threshold` recorded. */
  lemma RecordedVerdictReturned(c: Checker, audioPath: string, sentence: Option<string>, transcription: Transcription,
                                similarity: string -> Option<real>)
    ensures var r := CheckAudioQuality(c, audioPath, sentence, transcription, similarity, false);
      |r.checker.history| > |c.history| ==> r.checker.history[|c.history|].passedThreshold == r.verdict
  {
  }

  /** The sentence is only recorded: two checks that differ only in the
      sentence return the same verdict and record the same score. */
  lemma SentenceIrrelevant(c: Checker, audioPath: string, s1: Option<string>, s2: Option<string>,
                           transcription: Transcription, similarity: string -> Option<real>, numpyScore: bool)
    ensures var r1 := CheckAudioQuality(c, audioPath, s1, transcription, similarity, numpyScore);
      var r2 := CheckAudioQuality(c, audioPath, s2, transcription, similarity, numpyScore);
      && r1.verdict == r2.verdict
      && |r1.checker.history| == |r2.checker.history|
      && forall i :: 0 <= i < |r1.checker.history| ==>
           r1.checker.history[i].(originalText := None) == r2.checker.history[i].(originalText := None)
  {
  }

  /** As written, a numpy score never passes: with a score of 0.9 against
      the default threshold, the record says it passed and the call returns
      `False`. */
  lemma NumpyScoreNeverPasses(audioPath: string, sentence: Option<string>, t: string)
    ensures var sim := (u: string) => Some(0.9);
      var r := CheckAudioQuality(NewChecker(DefaultThreshold), audioPath, sentence, Transcribed(t), sim, true);
      && |r.checker.history| == 1 && r.checker.history[0].passedThreshold
      && !r.verdict
      && CheckAudioQualityFixed(NewChecker(DefaultThreshold), audioPath, sentence, Transcribed(t), sim).verdict
  {
  }

  // ---------------------------------------------------------------------
  // History consistency
  // ---------------------------------------------------------------------

  /** Every record's verdict is the comparison of its score with the
      checker's threshold. */
  predicate Consistent(c: Checker) {
    forall i :: 0 <= i < |c.history| ==> c.history[i].passedThreshold == (c.history[i].similarityScore >= c.threshold)
  }

  /** Both versions of the check keep the history consistent. */
  lemma ChecksKeepConsistency(c: Checker, audioPath: string, sentence: Option<string>, transcription: Transcription,
                              similarity: string -> Option<real>, numpyScore: bool)
    requires Consistent(c)
    ensures Consistent(CheckAudioQuality(c, audioPath, sentence, transcription, similarity, numpyScore).checker)
    ensures Consistent(CheckAudioQualityFixed(c, audioPath, sentence, transcription, similarity).checker)
  {
  }

  // ---------------------------------------------------------------------
  // get_statistics
  // ---------------------------------------------------------------------

  /** The dictionary `get_statistics` returns. */
  datatype Statistics = Statistics(
    totalSamples: nat,
    averageScore: real,
    medianScore: real,
    minScore: real,
    maxScore: real,
    failedChecks: nat,
    threshold: real)

  /** The recorded scores, in order. */
  function Scores(h: seq<ScoreRecord>): (r: seq<real>)
    ensures |r| == |h|
    ensures forall i :: 0 <= i < |h| ==> r[i] == h[i].similarityScore
  {
    seq(|h|, i requires 0 <= i < |h| => h[i].similarityScore)
  }

  function Sum(s: seq<real>): real
    decreases |s|
  {
    if |s| == 0 then 0.0 else Sum(s[..|s| - 1]) + s[|s| - 1]
  }

  /** `np.mean`. */
  function Mean(s: seq<real>): real
    requires |s| > 0
  {
    Sum(s) / (|s| as real)
  }

  /** The mean times the number of values gives back their sum. */
  lemma MeanTimesCount(s: seq<real>)
    requires |s| > 0
    ensures Mean(s) * (|s| as real) == Sum(s)
  {
  }

  /** `np.min`. */
  function Min(s: seq<real>): (m: real)
    requires |s| > 0
    ensures m in s && forall i :: 0 <= i < |s| ==> m <= s[i]
    decreases |s|
  {
    if |s| == 1 then s[0]
    else
      var m := Min(s[..|s| - 1]);
      assert forall i :: 0 <= i < |s| - 1 ==> s[..|s| - 1][i] == s[i];
      if s[|s| - 1] < m then s[|s| - 1] else m
  }

  /** `np.max`. */
  function Max(s: seq<real>): (m: real)
    requires |s| > 0
    ensures m in s && forall i :: 0 <= i < |s| ==> s[i] <= m
    decreases |s|
  {
    if |s| == 1 then s[0]
    else
      var m := Max(s[..|s| - 1]);
      assert forall i :: 0 <= i < |s| - 1 ==> s[..|s| - 1][i] == s[i];
      if s[|s| - 1] > m then s[|s| - 1] else m
  }

  /** `np.median`: the middle of the sorted scores, or the mean of the two
      middle ones when their number is even. */
  function Median(s: seq<real>): real
    requires |s| > 0
  {
    var t := RealSort.Sort(s);
    RealSort.SortedEnds(s, t);
    var n := |t|;
    if n % 2 == 1 then t[n / 2] else (t[n / 2 - 1] + t[n / 2]) / 2.0
  }

  /** `sum(1 for item in history if not item['passed_threshold'])`. */
  function CountFailed(h: seq<ScoreRecord>): (n: nat)
    ensures n <= |h|
    decreases |h|
  {
    if |h| == 0 then 0
    else CountFailed(h[..|h| - 1]) + (if h[|h| - 1].passedThreshold then 0 else 1)
  }

  /** The number of scores below `threshold`. */
  function CountBelow(s: seq<real>, threshold: real): nat
    decreases |s|
  {
    if |s| == 0 then 0
    else CountBelow(s[..|s| - 1], threshold) + (if s[|s| - 1] < threshold then 1 else 0)
  }

  /** `get_statistics()`: `None` for an empty history, otherwise the summary
      of the recorded scores. */
  function GetStatistics(c: Checker): (r: Option<Statistics>)
    ensures r.None? <==> c.history == []
    ensures r.Some? ==> r.value.totalSamples == |c.history| && r.value.threshold == c.threshold
    ensures r.Some? ==> r.value.failedChecks <= r.value.totalSamples
    ensures r.Some? ==> r.value.minScore in Scores(c.history) && r.value.maxScore in Scores(c.history)
    ensures r.Some? ==> forall i :: 0 <= i < |c.history| ==>
              r.value.minScore <= c.history[i].similarityScore <= r.value.maxScore
    ensures r.Some? ==> r.value.failedChecks == CountFailed(c.history)
    ensures r.Some? ==> r.value.averageScore == Mean(Scores(c.history))
    ensures r.Some? ==> r.value.medianScore == Median(Scores(c.history))
  {
    if c.history == [] then None
    else
      var s := Scores(c.history);
      assert forall i :: 0 <= i < |c.history| ==> c.history[i].similarityScore == s[i];
      Some(Statistics(|s|, Mean(s), Median(s), Min(s), Max(s), CountFailed(c.history), c.threshold))
  }

  /** The mean and the median lie between the smallest and the largest
      score. */
  lemma StatisticsBounds(c: Checker)
    requires c.history != []
    ensures var st := GetStatistics(c).value;
      && st.minScore <= st.averageScore <= st.maxScore
      && st.minScore <= st.medianScore <= st.maxScore
  {
    var s := Scores(c.history);
    var lo, hi := Min(s), Max(s);
    MeanBetween(s, lo, hi);
    MedianBetween(s, lo, hi);
  }

  /** The mean of values between `lo` and `hi` lies between them. */
  lemma MeanBetween(s: seq<real>, lo: real, hi: real)
    requires |s| > 0
    requires forall i :: 0 <= i < |s| ==> lo <= s[i] <= hi
    ensures lo <= Mean(s) <= hi
  {
    SumBounds(s, lo, hi);
    DivideBounds(Sum(s), |s| as real, lo, hi);
  }

  /** The sum of `n` values between `lo` and `hi` lies between `n * lo` and
      `n * hi`. */
  lemma {:induction false} SumBounds(s: seq<real>, lo: real, hi: real)
    requires forall i :: 0 <= i < |s| ==> lo <= s[i] <= hi
    ensures (|s| as real) * lo <= Sum(s) <= (|s| as real) * hi
    decreases |s|
  {
    if |s| > 0 {
      var init := s[..|s| - 1];
      SumBounds(init, lo, hi);
      StepBounds(|init| as real, Sum(init), s[|s| - 1], lo, hi);
    }
  }

  /** Adding one value between `lo` and `hi` to a sum of `n` such values. */
  lemma StepBounds(n: real, sum: real, x: real, lo: real, hi: real)
    requires n * lo <= sum <= n * hi && lo <= x <= hi
    ensures (n + 1.0) * lo <= sum + x <= (n + 1.0) * hi
  {
  }

  lemma DivideBounds(sum: real, n: real, lo: real, hi: real)
    requires n > 0.0 && n * lo <= sum <= n * hi
    ensures lo <= sum / n <= hi
  {
  }

  /** The median of values between `lo` and `hi` lies between them. */
  lemma MedianBetween(s: seq<real>, lo: real, hi: real)
    requires |s| > 0
    requires forall i :: 0 <= i < |s| ==> lo <= s[i] <= hi
    ensures lo <= Median(s) <= hi
  {
    var t := RealSort.Sort(s);
    RealSort.SortedEnds(s, t);
    assert lo <= t[0] && t[|t| - 1] <= hi by {
      var i :| 0 <= i < |s| && s[i] == t[0];
      var j :| 0 <= j < |s| && s[j] == t[|t| - 1];
    }
    MiddleBounds(t, lo, hi);
  }

  /** The middle of a sorted sequence whose ends lie between `lo` and `hi`. */
  lemma MiddleBounds(t: seq<real>, lo: real, hi: real)
    requires RealSort.Sorted(t) && |t| > 0 && lo <= t[0] && t[|t| - 1] <= hi
    ensures var n := |t|;
      lo <= (if n % 2 == 1 then t[n / 2] else (t[n / 2 - 1] + t[n / 2]) / 2.0) <= hi
  {
    var n := |t|;
    assert t[0] <= t[n / 2] <= t[n - 1];
    if n % 2 == 0 {
      assert t[0] <= t[n / 2 - 1] <= t[n - 1];
    }
  }

  /** In a consistent history, the failed checks are the scores below the
      threshold. */
  lemma {:induction false} FailedAreBelowThreshold(c: Checker)
    requires Consistent(c)
    ensures CountFailed(c.history) == CountBelow(Scores(c.history), c.threshold)
    decreases |c.history|
  {
    if |c.history| > 0 {
      var h := c.history;
      var init := c.(history := h[..|h| - 1]);
      FailedAreBelowThreshold(init);
      assert Scores(h)[..|h| - 1] == Scores(init.history);
    }
  }
}
