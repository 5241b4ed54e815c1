/** The text rules of `EpubProcessor` in `epub_processor.py`: title
    normalisation, the lone-newline rule applied to each extracted document,
    the table of extracted texts, resolution of a chapter's `content_src` and
    the final whitespace collapse. Zip extraction and HTML parsing are outside
    the model: it starts from the navigation points and the per-file texts
    those libraries produce. */
module EpubText {
  import opened Wrappers
  import opened Text
  import FileUtils

  // ---------------------------------------------------------------------
  // Chapter titles (extract_metadata)
  // ---------------------------------------------------------------------

  /** A navigation-point title as `extract_metadata` stores it: stripped, and
      ending with a full stop, which is appended only when missing. */
  function NormalizeTitle(raw: string): (r: string)
    ensures |r| > 0 && r[|r| - 1] == '.'
    ensures var t := Strip(raw);
      && |t| <= |r| <= |t| + 1
      && r[..|t|] == t
      && (|t| > 0 && t[|t| - 1] == '.' ==> r == t)
  {
    var t := Strip(raw);
    if |t| > 0 && t[|t| - 1] == '.' then t else t + "."
  }

  /** A normalised title is left alone by a second normalisation. */
  lemma NormalizeTitleIdempotent(raw: string)
    ensures NormalizeTitle(NormalizeTitle(raw)) == NormalizeTitle(raw)
  {
    var r := NormalizeTitle(raw);
    var t := Strip(raw);
    assert !IsSpace(r[0]) by {
      if t != [] {
        assert r[0] == t[0];
      } else {
        DotNotSpace();
      }
    }
    assert !IsSpace(r[|r| - 1]) by {
      DotNotSpace();
    }
    StripUnchanged(r);
  }

  lemma DotNotSpace()
    ensures !IsSpace('.')
  {
  }

  // ---------------------------------------------------------------------
  // The lone-newline rule of extract_text_from_file
  // ---------------------------------------------------------------------

  /** Position `i` of `s` holds a newline with no newline directly before or
      after it: what `(?<!\n)\n(?!\n)` matches. */
  predicate IsLoneNewline(s: string, i: int)
    requires 0 <= i < |s|
  {
    && s[i] == '\n'
    && (i == 0 || s[i - 1] != '\n')
    && (i == |s| - 1 || s[i + 1] != '\n')
  }

  /** The regular-expression scan of `re.sub(r'(?<!\n)\n(?!\n)', ' ', s)`:
      the scanner carries whether the character it consumed last was a
      newline (the look-behind) and peeks at the next one (the look-ahead). */
  function ScanNewlines(s: string, afterNewline: bool): (r: string)
    ensures |r| == |s|
    decreases |s|
  {
    if |s| == 0 then []
    else
      var lone := s[0] == '\n' && !afterNewline && (|s| == 1 || s[1] != '\n');
      [if lone then ' ' else s[0]] + ScanNewlines(s[1..], s[0] == '\n')
  }

  /** The text `extract_text_from_file` returns for the `get_text` output `s`. */
  function JoinLoneNewlines(s: string): (r: string)
    ensures |r| == |s|
    ensures forall i :: 0 <= i < |s| ==> r[i] == (if IsLoneNewline(s, i) then ' ' else s[i])
  {
    ScanNewlinesPointwise(s, 0);
    assert s[0..] == s;
    ScanNewlines(s, false)
  }

  /** The scanner started at position `from` of `s`, with the look-behind
      state that position implies, replaces exactly the lone newlines. */
  lemma {:induction false} ScanNewlinesPointwise(s: string, from: nat)
    requires from <= |s|
    ensures var r := ScanNewlines(s[from..], from > 0 && s[from - 1] == '\n');
      forall i :: from <= i < |s| ==> r[i - from] == (if IsLoneNewline(s, i) then ' ' else s[i])
    decreases |s| - from
  {
    if from < |s| {
      ScanNewlinesPointwise(s, from + 1);
      assert s[from..][1..] == s[from + 1..];
    }
  }

  /** After the rule, every newline has a newline neighbour: applying the
      rule a second time changes nothing. */
  lemma JoinLoneNewlinesIdempotent(s: string)
    ensures JoinLoneNewlines(JoinLoneNewlines(s)) == JoinLoneNewlines(s)
  {
    var r := JoinLoneNewlines(s);
    var r2 := JoinLoneNewlines(r);
    forall i | 0 <= i < |r|
      ensures r2[i] == r[i]
    {
      if r[i] == '\n' {
        assert !IsLoneNewline(s, i);
      }
    }
  }

  /** A run of two or more newlines comes through unchanged. */
  lemma NewlineRunsKept(s: string, i: int, j: int)
    requires 0 <= i < j <= |s| && j - i >= 2
    requires forall k :: i <= k < j ==> s[k] == '\n'
    ensures JoinLoneNewlines(s)[i..j] == s[i..j]
  {
    var r := JoinLoneNewlines(s);
    forall k | i <= k < j
      ensures r[k] == s[k]
    {
      if k + 1 < j {
        assert s[k + 1] == '\n';
      } else {
        assert s[k - 1] == '\n';
      }
    }
  }

  // ---------------------------------------------------------------------
  // Whitespace collapse of analyze_epub: re.sub(r'\s+', ' ', c).strip()
  // ---------------------------------------------------------------------

  /** The non-whitespace characters of `s`, in order. */
  function NonSpace(s: string): string
    decreases |s|
  {
    if |s| == 0 then [] else (if IsSpace(s[0]) then [] else [s[0]]) + NonSpace(s[1..])
  }

  /** The only whitespace is the plain space, never two in a row, and none at
      either end. */
  predicate IsCollapsed(s: string) {
    && SingleSpaced(s)
    && (s == [] || (!IsSpace(s[0]) && !IsSpace(s[|s| - 1])))
  }

  /** Every whitespace character is a plain space and none follows another. */
  predicate SingleSpaced(s: string) {
    && (forall k :: 0 <= k < |s| && IsSpace(s[k]) ==> s[k] == ' ')
    && (forall k :: 0 < k < |s| && IsSpace(s[k]) ==> !IsSpace(s[k - 1]))
  }

  /** The scan of `re.sub(r'\s+', ' ', s)`: each maximal run of whitespace
      becomes one space. `inRun` says a run has already been replaced. */
  function CollapseRuns(s: string, inRun: bool): string
    decreases |s|
  {
    if |s| == 0 then []
    else if IsSpace(s[0]) then
      (if inRun then [] else [' ']) + CollapseRuns(s[1..], true)
    else [s[0]] + CollapseRuns(s[1..], false)
  }

  lemma {:induction false} NonSpaceConcat(a: string, b: string)
    ensures NonSpace(a + b) == NonSpace(a) + NonSpace(b)
    decreases |a|
  {
    if |a| > 0 {
      NonSpaceConcat(a[1..], b);
      var h: string := if IsSpace(a[0]) then [] else [a[0]];
      assert (a + b)[0] == a[0];
      assert (a + b)[1..] == a[1..] + b;
      assert NonSpace(a + b) == h + NonSpace(a[1..] + b);
      assert NonSpace(a) == h + NonSpace(a[1..]);
    } else {
      assert a + b == b;
    }
  }

  lemma {:induction false} NonSpaceBlank(s: string)
    requires IsBlank(s)
    ensures NonSpace(s) == []
    decreases |s|
  {
    if |s| > 0 {
      NonSpaceBlank(s[1..]);
    }
  }

  /** The run scan leaves only plain spaces, never two adjacent, none first
      when a run was already open, and keeps the other characters in order. */
  lemma {:induction false} CollapseRunsShape(s: string, inRun: bool)
    ensures var r := CollapseRuns(s, inRun);
      && SingleSpaced(r)
      && (inRun && r != [] ==> !IsSpace(r[0]))
      && NonSpace(r) == NonSpace(s)
    decreases |s|
  {
    if |s| > 0 {
      var rest := CollapseRuns(s[1..], IsSpace(s[0]));
      CollapseRunsShape(s[1..], IsSpace(s[0]));
      var head: string := if IsSpace(s[0]) then (if inRun then [] else [' ']) else [s[0]];
      var r := head + rest;
      assert r == CollapseRuns(s, inRun);
      NonSpaceConcat(head, rest);
      assert IsSpace(' ');
      forall k | 0 < k < |r| && IsSpace(r[k])
        ensures !IsSpace(r[k - 1])
      {
        if k - 1 >= |head| {
          assert r[k] == rest[k - |head|] && r[k - 1] == rest[k - 1 - |head|];
        } else {
          assert r[k] == rest[0];
        }
      }
    }
  }

  /** The collapse `analyze_epub` applies to every chapter's content: the
      result is collapsed, holds the input's non-whitespace characters in
      order, and is `' '.join(s.split())`: the words of `s` separated by
      single spaces. */
  function CollapseWhitespace(s: string): (r: string)
    ensures IsCollapsed(r)
    ensures NonSpace(r) == NonSpace(s)
    ensures r == Join(" ", Words(s))
  {
    var t := CollapseRuns(s, false);
    CollapseRunsShape(s, false);
    StripKeepsShape(t);
    CollapseIsJoinedWords(s);
    Strip(t)
  }

  /** The run scan and the strip give the words joined by single spaces. */
  lemma CollapseIsJoinedWords(s: string)
    ensures Strip(CollapseRuns(s, false)) == Join(" ", Words(s))
  {
    var lead: string := if s != [] && IsSpace(s[0]) then " " else "";
    var trail := Trail(s);
    CollapseRunsLead(s);
    CollapseRunsWords(s);
    JoinWordsEnds(Words(s));
    Pad(CollapseRuns(s, false), CollapseRuns(s, true), lead, Join(" ", Words(s)), trail);
    StripPadded(lead, Join(" ", Words(s)), trail);
  }

  lemma Pad(x: string, y: string, lead: string, m: string, trail: string)
    requires x == lead + y && y == m + trail
    ensures x == lead + m + trail
  {
  }

  // ---------------------------------------------------------------------
  // Words: the reference for the collapse
  // ---------------------------------------------------------------------

  /** The end of the run of non-whitespace characters of `s` starting at `i`. */
  function SkipWord(s: string, i: nat): (r: nat)
    requires i <= |s|
    ensures i <= r <= |s|
    ensures forall k :: i <= k < r ==> !IsSpace(s[k])
    ensures r < |s| ==> IsSpace(s[r])
    decreases |s| - i
  {
    if i == |s| || IsSpace(s[i]) then i else SkipWord(s, i + 1)
  }

  /** A word: a non-empty string without whitespace. */
  predicate IsWord(w: string) {
    w != [] && forall k :: 0 <= k < |w| ==> !IsSpace(w[k])
  }

  /** `s.split()` without arguments: the maximal runs of non-whitespace
      characters of `s`, in order. */
  function Words(s: string): (ws: seq<string>)
    ensures forall i :: 0 <= i < |ws| ==> IsWord(ws[i])
    decreases |s|
  {
    var a := SkipSpaces(s, 0);
    if a == |s| then []
    else
      var b := SkipWord(s, a);
      [s[a..b]] + Words(s[b..])
  }

  /** Words joined by single spaces: empty exactly when there are no words,
      and otherwise neither end is whitespace. */
  lemma {:induction false} JoinWordsEnds(ws: seq<string>)
    requires forall i :: 0 <= i < |ws| ==> IsWord(ws[i])
    ensures var j := Join(" ", ws);
      && (j == [] <==> ws == [])
      && (j == [] || (!IsSpace(j[0]) && !IsSpace(j[|j| - 1])))
    decreases |ws|
  {
    if |ws| > 1 {
      JoinWordsEnds(ws[1..]);
      var rest := Join(" ", ws[1..]);
      var j := ws[0] + " " + rest;
      assert j[0] == ws[0][0];
      assert j[|j| - 1] == rest[|rest| - 1];
    } else if |ws| == 1 {
      assert ws[0][0] == ws[0][0];
    }
  }

  /** Inside a run, leading whitespace adds nothing. */
  lemma {:induction false} RunSkipsSpaces(s: string, a: nat)
    requires a <= |s|
    requires forall k :: 0 <= k < a ==> IsSpace(s[k])
    ensures CollapseRuns(s, true) == CollapseRuns(s[a..], true)
    decreases a
  {
    if a > 0 {
      RunSkipsSpaces(s[1..], a - 1);
      assert s[1..][a - 1..] == s[a..];
    }
  }

  /** A word comes through as it is and closes any run. */
  lemma {:induction false} RunKeepsWord(s: string, a: nat, b: nat, inRun: bool)
    requires a < b <= |s|
    requires forall k :: a <= k < b ==> !IsSpace(s[k])
    ensures CollapseRuns(s[a..], inRun) == s[a..b] + CollapseRuns(s[b..], false)
    decreases b - a
  {
    assert s[a..][1..] == s[a + 1..];
    if a + 1 < b {
      RunKeepsWord(s, a + 1, b, false);
      assert s[a..b] == [s[a]] + s[a + 1..b];
    } else {
      assert s[a..b] == [s[a]];
    }
  }

  /** Inside a run, the scan gives the words separated by single spaces,
      followed by one space when the text ends in whitespace after a word. */
  lemma {:induction false} CollapseRunsWords(s: string)
    ensures CollapseRuns(s, true) == Join(" ", Words(s)) + Trail(s)
    decreases |s|
  {
    var a := SkipSpaces(s, 0);
    if a == |s| {
      RunSkipsSpaces(s, a);
      assert s[a..] == [];
    } else {
      var b := SkipWord(s, a);
      var w, r := s[a..b], s[b..];
      RunFront(s);
      assert Words(s) == [w] + Words(r);
      JoinAfterWord(w, Words(r));
      if r == [] {
        assert s[|s| - 1] == w[|w| - 1];
      } else {
        RunAfterSpace(r);
        CollapseRunsWords(r);
        TrailStep(s, r);
        WordStepAlgebra(w, CollapseRuns(r, false), CollapseRuns(r, true), Join(" ", Words(r)), Trail(r),
                        Join(" ", Words(s)), Trail(s), Words(r) != []);
      }
    }
  }

  /** Inside a run, the scan of a text with a word gives that word first. */
  lemma RunFront(s: string)
    requires SkipSpaces(s, 0) < |s|
    ensures var a := SkipSpaces(s, 0);
      var b := SkipWord(s, a);
      CollapseRuns(s, true) == s[a..b] + CollapseRuns(s[b..], false)
  {
    var a := SkipSpaces(s, 0);
    var b := SkipWord(s, a);
    RunSkipsSpaces(s, a);
    RunKeepsWord(s, a, b, true);
  }

  /** Whitespace after a word opens a run with one space. */
  lemma RunAfterSpace(r: string)
    requires r != [] && IsSpace(r[0])
    ensures CollapseRuns(r, false) == " " + CollapseRuns(r, true)
  {
  }

  /** The trailing space after a word followed by more text `r`: that of
      `r` when `r` holds a word, and otherwise one space, since `r` is then
      non-empty whitespace. */
  lemma TrailStep(s: string, r: string)
    requires r != [] && |r| <= |s| && s[|s| - 1] == r[|r| - 1] && Words(s) != []
    ensures Trail(s) == (if Words(r) != [] then Trail(r) else " ")
  {
    if Words(r) == [] {
      assert SkipSpaces(r, 0) == |r|;
    }
  }

  /** The concatenations behind one step of `CollapseRunsWords`. */
  lemma WordStepAlgebra(w: string, crf: string, crt: string, jr: string, tr: string, js: string, ts: string, more: bool)
    requires crf == " " + crt && crt == jr + tr
    requires more ==> js == w + " " + jr && ts == tr
    requires !more ==> js == w && ts == " " && jr == [] && tr == []
    ensures w + crf == js + ts
  {
  }

  /** The space the scan leaves at the end: one when the text ends in
      whitespace after a word. */
  function Trail(s: string): string {
    if Words(s) != [] && IsSpace(s[|s| - 1]) then " " else ""
  }

  /** One more word in front of the words of the rest of the text. */
  lemma JoinAfterWord(w: string, ws: seq<string>)
    ensures ws == [] ==> Join(" ", [w] + ws) == w
    ensures ws != [] ==> Join(" ", [w] + ws) == w + " " + Join(" ", ws)
  {
    if ws != [] {
      assert ([w] + ws)[1..] == ws;
    } else {
      assert [w] + ws == [w];
    }
  }

  /** Outside a run, the scan adds one space for leading whitespace. */
  lemma CollapseRunsLead(s: string)
    ensures CollapseRuns(s, false)
      == (if s != [] && IsSpace(s[0]) then " " else "") + CollapseRuns(s, true)
  {
  }

  /** Stripping whitespace padding gives back a string whose ends are not
      whitespace. */
  lemma StripPadded(p: string, m: string, q: string)
    requires IsBlank(p) && IsBlank(q)
    requires m == [] || (!IsSpace(m[0]) && !IsSpace(m[|m| - 1]))
    ensures Strip(p + m + q) == m
  {
    var x := p + m + q;
    if m == [] {
      assert IsBlank(x) by {
        forall k | 0 <= k < |x| ensures IsSpace(x[k]) {
          if k < |p| { assert x[k] == p[k]; } else { assert x[k] == q[k - |p|]; }
        }
      }
    } else {
      var r := Strip(x);
      var a := StripStart(x);
      assert x[|p|] == m[0];
      assert x[|p| + |m| - 1] == m[|m| - 1];
      assert a == |p|;
      assert |r| == |m|;
      assert x[|p|..|p| + |m|] == m;
    }
  }

  /** Stripping a string whose whitespace is single plain spaces keeps that
      shape and every non-whitespace character. */
  lemma StripKeepsShape(t: string)
    requires SingleSpaced(t)
    ensures IsCollapsed(Strip(t))
    ensures NonSpace(Strip(t)) == NonSpace(t)
  {
    var r := Strip(t);
    SliceKeepsShape(t, StripStart(t), StripStart(t) + |r|);
    StripKeepsNonSpace(t);
  }

  /** A slice of a string whose whitespace is single plain spaces has that shape too. */
  lemma SliceKeepsShape(t: string, a: nat, b: nat)
    requires a <= b <= |t|
    requires SingleSpaced(t)
    ensures SingleSpaced(t[a..b])
  {
    var r := t[a..b];
    forall k | 0 <= k < |r| && IsSpace(r[k])
      ensures r[k] == ' '
    {
      assert r[k] == t[a + k];
    }
    forall k | 0 < k < |r| && IsSpace(r[k])
      ensures !IsSpace(r[k - 1])
    {
      assert r[k] == t[a + k] && r[k - 1] == t[a + k - 1];
    }
  }

  /** Stripping removes whitespace only. */
  lemma StripKeepsNonSpace(t: string)
    ensures NonSpace(Strip(t)) == NonSpace(t)
  {
    var r := Strip(t);
    var a := StripStart(t);
    var b := a + |r|;
    var pre, post := t[..a], t[b..];
    assert t == pre + r + post;
    assert IsBlank(pre) by {
      forall k | 0 <= k < |pre| ensures IsSpace(pre[k]) {
        assert pre[k] == t[k];
      }
    }
    assert IsBlank(post) by {
      forall k | 0 <= k < |post| ensures IsSpace(post[k]) {
        assert post[k] == t[b + k];
      }
    }
    NonSpaceConcat(pre + r, post);
    NonSpaceConcat(pre, r);
    NonSpaceBlank(pre);
    NonSpaceBlank(post);
  }

  /** A collapsed string is a fixed point of the run scan. */
  lemma {:induction false} CollapseRunsOfCollapsed(s: string, inRun: bool)
    requires SingleSpaced(s)
    requires inRun ==> s == [] || !IsSpace(s[0])
    ensures CollapseRuns(s, inRun) == s
    decreases |s|
  {
    if |s| > 0 {
      if |s| > 1 {
        assert IsSpace(s[0]) ==> !IsSpace(s[1]);
      }
      SliceKeepsShape(s, 1, |s|);
      CollapseRunsOfCollapsed(s[1..], IsSpace(s[0]));
    }
  }

  /** Collapsing is idempotent. */
  lemma CollapseWhitespaceIdempotent(s: string)
    ensures CollapseWhitespace(CollapseWhitespace(s)) == CollapseWhitespace(s)
  {
    var r := CollapseWhitespace(s);
    CollapseRunsOfCollapsed(r, false);
    StripUnchanged(r);
  }

  // ---------------------------------------------------------------------
  // The table of extracted texts and content resolution (analyze_epub)
  // ---------------------------------------------------------------------

  /** A file found by the walk over the extracted archive: its base name and
      the `get_text` output of its HTML, or `None` when reading it failed. */
  datatype ExtractedFile = ExtractedFile(name: string, soupText: Option<string>)

  /** A navigation point of the NCX table: its title text and its `src`
      attribute, `None` when absent. */
  datatype NavPoint = NavPoint(text: string, src: Option<string>)

  /** `EpubProcessor.Chapter`. */
  datatype Chapter = Chapter(title: string, contentSrc: Option<string>, content: string)

  predicate EndsWith(s: string, suffix: string) {
    |suffix| <= |s| && s[|s| - |suffix|..] == suffix
  }

  /** The extensions the walk keeps. */
  predicate IsHtmlName(name: string) {
    EndsWith(name, ".html") || EndsWith(name, ".htm") || EndsWith(name, ".xhtml")
  }

  /** What `extract_text_from_file` returns: the lone-newline rule applied to
      the parsed text, or `''` when reading or parsing raised. */
  function ExtractText(f: ExtractedFile): string {
    match f.soupText
    case Some(t) => JoinLoneNewlines(t)
    case None => ""
  }

  /** The names of a dictionary kept as a list of pairs in insertion order. */
  function Keys(d: seq<(string, string)>): seq<string> {
    seq(|d|, i requires 0 <= i < |d| => d[i].0)
  }

  predicate DistinctKeys(d: seq<(string, string)>) {
    forall i, j :: 0 <= i < j < |d| ==> d[i].0 != d[j].0
  }

  /** Where key `k` sits in `d`, if anywhere. */
  function KeyIndex(d: seq<(string, string)>, k: string): (r: Option<nat>)
    ensures r.Some? ==> r.value < |d| && d[r.value].0 == k
    ensures r.None? ==> forall j :: 0 <= j < |d| ==> d[j].0 != k
    decreases |d|
  {
    if |d| == 0 then None
    else if d[|d| - 1].0 == k then Some(|d| - 1)
    else KeyIndex(d[..|d| - 1], k)
  }

  /** `d[k] = v` on a Python dictionary: an existing key keeps its place and
      gets the new value, a new key goes last. */
  function DictPut(d: seq<(string, string)>, k: string, v: string): (r: seq<(string, string)>)
    requires DistinctKeys(d)
    ensures DistinctKeys(r)
    ensures k in Keys(d) ==> |r| == |d| && Keys(r) == Keys(d)
    ensures k !in Keys(d) ==> r == d + [(k, v)]
    ensures forall i :: 0 <= i < |r| ==> (r[i] == if r[i].0 == k then (k, v) else d[i])
  {
    match KeyIndex(d, k)
    case Some(i) =>
      var r := d[i := (k, v)];
      assert Keys(d)[i] == k;
      assert Keys(r) == Keys(d);
      r
    case None =>
      assert k !in Keys(d);
      d + [(k, v)]
  }

  /** `text_by_file` after the walk: for every HTML file, in walk order, its
      name maps to its stripped extracted text; a name met again keeps its
      first place and takes the later text. */
  function TextByFile(walk: seq<ExtractedFile>): (d: seq<(string, string)>)
    ensures DistinctKeys(d)
    ensures forall i :: 0 <= i < |d| ==> IsHtmlName(d[i].0)
    decreases |walk|
  {
    if |walk| == 0 then []
    else
      var d := TextByFile(walk[..|walk| - 1]);
      var f := walk[|walk| - 1];
      if IsHtmlName(f.name) then DictPut(d, f.name, Strip(ExtractText(f))) else d
  }

  /** The index of the last walk entry named `name`, if any. */
  function LastNamed(walk: seq<ExtractedFile>, name: string): (r: Option<nat>)
    ensures r.Some? ==> r.value < |walk| && walk[r.value].name == name
    ensures r.Some? ==> forall i :: r.value < i < |walk| ==> walk[i].name != name
    ensures r.None? ==> forall i :: 0 <= i < |walk| ==> walk[i].name != name
    decreases |walk|
  {
    if |walk| == 0 then None
    else if walk[|walk| - 1].name == name then Some(|walk| - 1)
    else LastNamed(walk[..|walk| - 1], name)
  }

  /** The index of the first walk entry named `name`, if any. */
  function FirstNamed(walk: seq<ExtractedFile>, name: string): (r: Option<nat>)
    ensures r.Some? ==> r.value < |walk| && walk[r.value].name == name
    ensures r.Some? ==> forall i :: 0 <= i < r.value ==> walk[i].name != name
    ensures r.None? ==> forall i :: 0 <= i < |walk| ==> walk[i].name != name
    decreases |walk|
  {
    if |walk| == 0 then None
    else if walk[0].name == name then Some(0)
    else
      match FirstNamed(walk[1..], name)
      case Some(j) => Some(j + 1)
      case None => None
  }

  /** The table entry `e` holds the stripped text of the last walk entry
      with its name. */
  predicate TextOfLast(walk: seq<ExtractedFile>, e: (string, string)) {
    LastNamed(walk, e.0).Some? && e.1 == Strip(ExtractText(walk[LastNamed(walk, e.0).value]))
  }

  /** The walk meets a file named `x` before any file named `y`. */
  predicate SeenBefore(walk: seq<ExtractedFile>, x: string, y: string) {
    && FirstNamed(walk, x).Some? && FirstNamed(walk, y).Some?
    && FirstNamed(walk, x).value < FirstNamed(walk, y).value
  }

  /** Every HTML file of the walk has a key. */
  predicate CoversHtml(walk: seq<ExtractedFile>, d: seq<(string, string)>) {
    forall i :: 0 <= i < |walk| && IsHtmlName(walk[i].name) ==> walk[i].name in Keys(d)
  }

  /** Each key holds the stripped text of the last file with its name. */
  predicate ValuesFromLast(walk: seq<ExtractedFile>, d: seq<(string, string)>) {
    forall j :: 0 <= j < |d| ==> TextOfLast(walk, d[j])
  }

  /** The keys come in the order their names were first met. */
  predicate FirstSeenOrder(walk: seq<ExtractedFile>, d: seq<(string, string)>) {
    forall j, k :: 0 <= j < k < |d| ==> SeenBefore(walk, d[j].0, d[k].0)
  }

  /** The table maps exactly the HTML names of the walk: each to the
      stripped text of the last file with that name, in the order the names
      were first met. */
  lemma {:induction false} TextByFileContents(walk: seq<ExtractedFile>)
    ensures var d := TextByFile(walk);
      forall i :: 0 <= i < |walk| && IsHtmlName(walk[i].name) ==> walk[i].name in Keys(d)
    ensures var d := TextByFile(walk);
      forall j :: 0 <= j < |d| ==> TextOfLast(walk, d[j])
    ensures var d := TextByFile(walk);
      forall j, k :: 0 <= j < k < |d| ==> SeenBefore(walk, d[j].0, d[k].0)
  {
    TableInvariant(walk);
  }

  lemma {:induction false} TableInvariant(walk: seq<ExtractedFile>)
    ensures CoversHtml(walk, TextByFile(walk))
    ensures ValuesFromLast(walk, TextByFile(walk))
    ensures FirstSeenOrder(walk, TextByFile(walk))
    decreases |walk|
  {
    if |walk| > 0 {
      var w, f := walk[..|walk| - 1], walk[|walk| - 1];
      assert walk == w + [f];
      TableInvariant(w);
      PutShape(walk);
      CoversStep(w, f, TextByFile(w), TextByFile(walk));
      ValuesStep(w, f, TextByFile(w), TextByFile(walk));
      OrderStep(w, f, TextByFile(w), TextByFile(walk));
    }
  }

  /** How the table `d0` changes into `d` when the walk meets `f`: existing
      keys keep their places, the entry named like `f` takes its text, and a
      new HTML name goes last. */
  predicate PutInto(d0: seq<(string, string)>, d: seq<(string, string)>, f: ExtractedFile) {
    && |d0| <= |d| <= |d0| + 1
    && (forall j :: 0 <= j < |d0| ==> IsHtmlName(d0[j].0))
    && (forall j :: 0 <= j < |d0| ==>
          d[j] == (if IsHtmlName(f.name) && d0[j].0 == f.name then (f.name, Strip(ExtractText(f))) else d0[j]))
    && (|d| == |d0| + 1 ==> IsHtmlName(f.name) && f.name !in Keys(d0) && d[|d0|] == (f.name, Strip(ExtractText(f))))
    && (IsHtmlName(f.name) ==> f.name in Keys(d))
    && (forall x :: x in Keys(d0) ==> x in Keys(d))
  }

  lemma {:induction false} PutShape(walk: seq<ExtractedFile>)
    requires |walk| > 0
    ensures PutInto(TextByFile(walk[..|walk| - 1]), TextByFile(walk), walk[|walk| - 1])
  {
    var d0, f := TextByFile(walk[..|walk| - 1]), walk[|walk| - 1];
    if IsHtmlName(f.name) {
      PutHtmlShape(d0, f);
    }
  }

  lemma PutHtmlShape(d0: seq<(string, string)>, f: ExtractedFile)
    requires DistinctKeys(d0) && IsHtmlName(f.name)
    requires forall j :: 0 <= j < |d0| ==> IsHtmlName(d0[j].0)
    ensures PutInto(d0, DictPut(d0, f.name, Strip(ExtractText(f))), f)
  {
    if f.name in Keys(d0) {
      PutKnownShape(d0, f);
    } else {
      PutNewShape(d0, f);
    }
  }

  lemma PutKnownShape(d0: seq<(string, string)>, f: ExtractedFile)
    requires DistinctKeys(d0) && IsHtmlName(f.name) && f.name in Keys(d0)
    requires forall j :: 0 <= j < |d0| ==> IsHtmlName(d0[j].0)
    ensures PutInto(d0, DictPut(d0, f.name, Strip(ExtractText(f))), f)
  {
    var v := Strip(ExtractText(f));
    var d := DictPut(d0, f.name, v);
    assert Keys(d) == Keys(d0);
    forall j | 0 <= j < |d0|
      ensures d[j] == (if d0[j].0 == f.name then (f.name, v) else d0[j])
    {
      assert Keys(d)[j] == Keys(d0)[j];
    }
  }

  lemma PutNewShape(d0: seq<(string, string)>, f: ExtractedFile)
    requires DistinctKeys(d0) && IsHtmlName(f.name) && f.name !in Keys(d0)
    requires forall j :: 0 <= j < |d0| ==> IsHtmlName(d0[j].0)
    ensures PutInto(d0, DictPut(d0, f.name, Strip(ExtractText(f))), f)
  {
    var v := Strip(ExtractText(f));
    var d := DictPut(d0, f.name, v);
    assert d == d0 + [(f.name, v)];
    assert Keys(d) == Keys(d0) + [f.name];
    forall j | 0 <= j < |d0|
      ensures d0[j].0 != f.name
    {
      assert Keys(d0)[j] == d0[j].0;
    }
  }

  /** A name the walk `w` already has keeps its first place once `f` is met,
      and its last place unless `f` bears it. */
  lemma {:induction false} NamedSnoc(w: seq<ExtractedFile>, f: ExtractedFile, x: string)
    requires LastNamed(w, x).Some?
    ensures FirstNamed(w + [f], x) == FirstNamed(w, x)
    ensures f.name != x ==> LastNamed(w + [f], x) == LastNamed(w, x)
  {
    var walk := w + [f];
    assert walk[..|walk| - 1] == w;
    var q := FirstNamed(w, x).value;
    assert walk[q] == w[q];
    assert forall i :: 0 <= i < q ==> walk[i] == w[i];
  }

  lemma {:induction false} CoversStep(w: seq<ExtractedFile>, f: ExtractedFile, d0: seq<(string, string)>, d: seq<(string, string)>)
    requires CoversHtml(w, d0) && PutInto(d0, d, f)
    ensures CoversHtml(w + [f], d)
  {
    var walk := w + [f];
    forall i | 0 <= i < |walk| && IsHtmlName(walk[i].name)
      ensures walk[i].name in Keys(d)
    {
      if i < |w| {
        assert walk[i] == w[i];
      }
    }
  }

  lemma {:induction false} ValuesStep(w: seq<ExtractedFile>, f: ExtractedFile, d0: seq<(string, string)>, d: seq<(string, string)>)
    requires ValuesFromLast(w, d0) && PutInto(d0, d, f)
    ensures ValuesFromLast(w + [f], d)
  {
    forall j | 0 <= j < |d|
      ensures TextOfLast(w + [f], d[j])
    {
      if d[j].0 == f.name {
        if j < |d0| {
          assert IsHtmlName(d0[j].0);
        }
        assert d[j] == (f.name, Strip(ExtractText(f)));
        NewestText(w, f);
      } else {
        assert d[j] == d0[j];
        assert TextOfLast(w, d0[j]);
        OlderText(w, f, d0[j]);
      }
    }
  }

  /** The file just met holds the text of its name. */
  lemma NewestText(w: seq<ExtractedFile>, f: ExtractedFile)
    ensures TextOfLast(w + [f], (f.name, Strip(ExtractText(f))))
  {
    assert (w + [f])[|w|] == f;
  }

  /** Meeting a file of another name leaves an entry's text in place. */
  lemma OlderText(w: seq<ExtractedFile>, f: ExtractedFile, e: (string, string))
    requires TextOfLast(w, e) && e.0 != f.name
    ensures TextOfLast(w + [f], e)
  {
    NamedSnoc(w, f, e.0);
    var p := LastNamed(w, e.0).value;
    assert (w + [f])[p] == w[p];
  }

  lemma {:induction false} OrderStep(w: seq<ExtractedFile>, f: ExtractedFile, d0: seq<(string, string)>, d: seq<(string, string)>)
    requires FirstSeenOrder(w, d0) && ValuesFromLast(w, d0) && CoversHtml(w, d0) && PutInto(d0, d, f)
    ensures FirstSeenOrder(w + [f], d)
  {
    var walk := w + [f];
    OldKeysStay(w, f, d0);
    assert forall j :: 0 <= j < |d0| ==> d[j].0 == d0[j].0;
    if |d| == |d0| + 1 {
      NewNameFirst(w, f, d0);
    }
    forall j, k | 0 <= j < k < |d|
      ensures SeenBefore(walk, d[j].0, d[k].0)
    {
      var x := d0[j].0;
      assert d[j].0 == x;
      assert FirstNamed(w, x).Some? && FirstNamed(walk, x) == FirstNamed(w, x);
      if k < |d0| {
        var y := d0[k].0;
        assert d[k].0 == y;
        assert FirstNamed(walk, y) == FirstNamed(w, y);
        assert SeenBefore(w, x, y);
      } else {
        assert k == |d0| && |d| == |d0| + 1;
        assert d[k] == (f.name, Strip(ExtractText(f)));
        SeenBeforeNew(walk, w, x, f.name);
      }
    }
  }

  /** A name met in `w` is met before the name first met just after `w`. */
  lemma SeenBeforeNew(walk: seq<ExtractedFile>, w: seq<ExtractedFile>, x: string, y: string)
    requires FirstNamed(w, x).Some? && FirstNamed(walk, x) == FirstNamed(w, x)
    requires FirstNamed(walk, y) == Some(|w|)
    ensures SeenBefore(walk, x, y)
  {
  }

  /** Keys of the table of `w` keep their first place once `f` is met. */
  lemma {:induction false} OldKeysStay(w: seq<ExtractedFile>, f: ExtractedFile, d0: seq<(string, string)>)
    requires ValuesFromLast(w, d0)
    ensures forall j :: 0 <= j < |d0| ==>
      FirstNamed(w, d0[j].0).Some? && FirstNamed(w + [f], d0[j].0) == FirstNamed(w, d0[j].0)
  {
    forall j | 0 <= j < |d0|
      ensures FirstNamed(w, d0[j].0).Some? && FirstNamed(w + [f], d0[j].0) == FirstNamed(w, d0[j].0)
    {
      assert TextOfLast(w, d0[j]);
      NamedSnoc(w, f, d0[j].0);
    }
  }

  /** A name that the table of `w` lacks is first met at `f`. */
  lemma {:induction false} NewNameFirst(w: seq<ExtractedFile>, f: ExtractedFile, d0: seq<(string, string)>)
    requires CoversHtml(w, d0) && IsHtmlName(f.name) && f.name !in Keys(d0)
    ensures FirstNamed(w + [f], f.name) == Some(|w|)
  {
    var walk := w + [f];
    forall i | 0 <= i < |w|
      ensures walk[i].name != f.name
    {
      assert walk[i] == w[i];
    }
    assert walk[|w|] == f;
  }

  /** `s.split('#')[0]`: what precedes the first `#`. */
  function BeforeHash(s: string): (r: string)
    ensures |r| <= |s| && r == s[..|r|]
    ensures forall k :: 0 <= k < |r| ==> r[k] != '#'
    ensures |r| < |s| ==> s[|r|] == '#'
    decreases |s|
  {
    if |s| == 0 || s[0] == '#' then [] else [s[0]] + BeforeHash(s[1..])
  }

  /** The index of the first entry whose name contains `needle`. */
  function FirstContaining(d: seq<(string, string)>, needle: string): (r: Option<nat>)
    ensures r.Some? ==> r.value < |d| && Contains(d[r.value].0, needle)
    ensures r.Some? ==> forall j :: 0 <= j < r.value ==> !Contains(d[j].0, needle)
    ensures r.None? ==> forall j :: 0 <= j < |d| ==> !Contains(d[j].0, needle)
    decreases |d|
  {
    if |d| == 0 then None
    else if Contains(d[0].0, needle) then Some(0)
    else
      match FirstContaining(d[1..], needle)
      case Some(j) => Some(j + 1)
      case None => None
  }

  /** The content `analyze_epub` gives a chapter before collapsing: when the
      chapter has a non-empty `content_src`, the fragment after `#` is
      dropped, the base name is taken, and the text of the first extracted
      file whose name contains it is used; without a match, or without a
      `content_src`, the content is empty. */
  function ResolveContent(src: Option<string>, d: seq<(string, string)>): (r: string)
    ensures (src.None? || src.value == "") ==> r == ""
    ensures src.Some? && src.value != "" ==>
      var name := FileUtils.Basename(BeforeHash(src.value));
      && ((forall j :: 0 <= j < |d| ==> !Contains(d[j].0, name)) ==> r == "")
      && (forall i ::
            (0 <= i < |d| && Contains(d[i].0, name) && forall j :: 0 <= j < i ==> !Contains(d[j].0, name))
            ==> r == d[i].1)
  {
    match src
    case None => ""
    case Some(s) =>
      if s == "" then ""
      else
        var name := FileUtils.Basename(BeforeHash(s));
        match FirstContaining(d, name)
        case Some(i) => d[i].1
        case None => ""
  }

  /** `analyze_epub` over already-parsed input: one chapter per navigation
      point, in order, with a normalised title and collapsed content. */
  function AnalyzeEpub(navs: seq<NavPoint>, walk: seq<ExtractedFile>): (chapters: seq<Chapter>)
    ensures |chapters| == |navs|
    ensures forall i :: 0 <= i < |chapters| ==>
      && chapters[i].title == NormalizeTitle(navs[i].text)
      && chapters[i].contentSrc == navs[i].src
      && chapters[i].content == CollapseWhitespace(ResolveContent(navs[i].src, TextByFile(walk)))
      && IsCollapsed(chapters[i].content)
  {
    var d := TextByFile(walk);
    seq(|navs|, i requires 0 <= i < |navs| =>
      Chapter(NormalizeTitle(navs[i].text), navs[i].src, CollapseWhitespace(ResolveContent(navs[i].src, d))))
  }
}
