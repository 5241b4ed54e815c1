/** File-name and file-size helpers of `utils.py`. Paths follow POSIX
    `os.path` rules: `/` is the only separator. */
module FileUtils {
  import opened Wrappers
  import opened Text

  // ---------------------------------------------------------------------
  // sanitize_filename
  // ---------------------------------------------------------------------

  /** The characters `sanitize_filename` replaces, in the order it replaces them. */
  const UnsafeChars: seq<char> := ['<', '>', ':', '"', '/', '\\', '|', '?', '*']

  predicate IsUnsafe(c: char) {
    c in UnsafeChars
  }

  /** `s.replace(target, repl)` where both are single characters. */
  function ReplaceChar(s: string, target: char, repl: char): (r: string)
    ensures |r| == |s|
    ensures forall k :: 0 <= k < |s| ==> r[k] == (if s[k] == target then repl else s[k])
    decreases |s|
  {
    if |s| == 0 then [] else [if s[0] == target then repl else s[0]] + ReplaceChar(s[1..], target, repl)
  }

  /** The loop of `sanitize_filename`: each character of `chars`, in order,
      is replaced by `_` throughout `s`. */
  function ReplaceEach(s: string, chars: seq<char>): string
    decreases |chars|
  {
    if |chars| == 0 then s else ReplaceEach(ReplaceChar(s, chars[0], '_'), chars[1..])
  }

  /** Replacing a list of characters one after the other replaces, at each
      position, exactly the characters on the list, provided `_` is not on it. */
  lemma {:induction false} ReplaceEachPointwise(s: string, chars: seq<char>)
    requires '_' !in chars
    ensures |ReplaceEach(s, chars)| == |s|
    ensures forall k :: 0 <= k < |s| ==>
      ReplaceEach(s, chars)[k] == (if s[k] in chars then '_' else s[k])
    decreases |chars|
  {
    if |chars| > 0 {
      var s' := ReplaceChar(s, chars[0], '_');
      ReplaceEachPointwise(s', chars[1..]);
      forall k | 0 <= k < |s|
        ensures ReplaceEach(s, chars)[k] == (if s[k] in chars then '_' else s[k])
      {
        assert s[k] in chars <==> s[k] == chars[0] || s[k] in chars[1..] by {
          assert chars == [chars[0]] + chars[1..];
        }
      }
    }
  }

  /** `sanitize_filename`: same length, every unsafe character becomes `_`,
      every other character stays where it was, and no unsafe character is left. */
  function SanitizeFilename(filename: string): (r: string)
    ensures |r| == |filename|
    ensures forall k :: 0 <= k < |r| ==> r[k] == (if IsUnsafe(filename[k]) then '_' else filename[k])
    ensures forall k :: 0 <= k < |r| ==> !IsUnsafe(r[k])
  {
    ReplaceEachPointwise(filename, UnsafeChars);
    ReplaceEach(filename, UnsafeChars)
  }

  /** Sanitizing a sanitized name changes nothing. */
  lemma SanitizeIdempotent(filename: string)
    ensures SanitizeFilename(SanitizeFilename(filename)) == SanitizeFilename(filename)
  {
    var once := SanitizeFilename(filename);
    var twice := SanitizeFilename(once);
    assert forall k :: 0 <= k < |once| ==> twice[k] == once[k];
  }

  // ---------------------------------------------------------------------
  // get_filename_without_extension
  // ---------------------------------------------------------------------

  /** `os.path.basename(p)`: what follows the last `/`. */
  function Basename(p: string): (r: string)
    ensures |r| <= |p| && r == p[|p| - |r|..]
    ensures forall k :: 0 <= k < |r| ==> r[k] != '/'
    ensures |r| < |p| ==> p[|p| - |r| - 1] == '/'
  {
    p[LastIndexOf(p, '/') + 1..]
  }

  /** `os.path.join(dir, name)` on POSIX: an absolute `name` replaces `dir`;
      otherwise a `/` is put between the two unless `dir` is empty or already
      ends with one. */
  function JoinPath(dir: string, name: string): (r: string)
    ensures |name| <= |r| && r[|r| - |name|..] == name
    ensures |name| > 0 && name[0] == '/' ==> r == name
    ensures !(|name| > 0 && name[0] == '/') ==>
      |dir| <= |r| && r[..|dir|] == dir && |r| <= |dir| + 1 + |name|
  {
    if |name| > 0 && name[0] == '/' then name
    else if dir == [] || dir[|dir| - 1] == '/' then dir + name
    else dir + "/" + name
  }

  /** Joining a directory and a name without `/` gives a path whose last
      component is that name. */
  lemma BasenameOfJoin(dir: string, name: string)
    requires forall k :: 0 <= k < |name| ==> name[k] != '/'
    ensures Basename(JoinPath(dir, name)) == name
  {
    var r := JoinPath(dir, name);
    var cut := |r| - |name|;
    assert cut == 0 || r[cut - 1] == '/';
    forall k | cut <= k < |r|
      ensures r[k] != '/'
    {
      assert r[k] == name[k - cut];
    }
    assert LastIndexOf(r, '/') == cut - 1;
  }

  /** `name` has an extension in the sense of `os.path.splitext`: a dot with
      some character other than a dot before it. Leading dots do not start an
      extension. */
  predicate HasExtension(name: string) {
    exists d :: 0 <= d < |name| && name[d] == '.' && HasNonDotBefore(name, d)
  }

  predicate HasNonDotBefore(name: string, d: int)
    requires 0 <= d <= |name|
  {
    exists i :: 0 <= i < d && name[i] != '.'
  }

  /** `os.path.splitext(name)[0]` for a name without `/`. */
  function SplitExtRoot(name: string): string {
    var dot := LastIndexOf(name, '.');
    if dot >= 0 && HasNonDotBefore(name, dot) then name[..dot] else name
  }

  /** `get_filename_without_extension`: a prefix of the last path component.
      When the component has an extension, exactly the final dot and what
      follows it are removed and the remaining stem still holds a character
      other than a dot; otherwise the component is returned whole. */
  function FilenameWithoutExtension(path: string): (r: string)
    ensures var b := Basename(path);
      && |r| <= |b| && r == b[..|r|]
      && (r == b <==> !HasExtension(b))
      && (r != b ==>
            && b[|r|] == '.'
            && (forall k :: |r| < k < |b| ==> b[k] != '.')
            && HasNonDotBefore(r, |r|))
  {
    var b := Basename(path);
    SplitExtRootFacts(b);
    SplitExtRoot(b)
  }

  lemma SplitExtRootFacts(b: string)
    ensures var r := SplitExtRoot(b);
      && |r| <= |b| && r == b[..|r|]
      && (r == b <==> !HasExtension(b))
      && (r != b ==>
            && b[|r|] == '.'
            && (forall k :: |r| < k < |b| ==> b[k] != '.')
            && HasNonDotBefore(r, |r|))
  {
    var dot := LastIndexOf(b, '.');
    var r := SplitExtRoot(b);
    if dot >= 0 && HasNonDotBefore(b, dot) {
      assert HasExtension(b);
      assert r == b[..dot];
      var i :| 0 <= i < dot && b[i] != '.';
      assert r[i] == b[i];
    } else {
      assert r == b;
    }
  }

  /** Partner of `FilenameWithoutExtension`: a path built from a directory, a
      stem and an extension yields the stem again, provided neither stem nor
      extension holds a `/`, the extension has no dot, and the stem is not all dots. */
  lemma StemOfJoinedPath(dir: string, stem: string, ext: string)
    requires forall k :: 0 <= k < |stem| ==> stem[k] != '/'
    requires forall k :: 0 <= k < |ext| ==> ext[k] != '/' && ext[k] != '.'
    requires exists i :: 0 <= i < |stem| && stem[i] != '.'
    ensures FilenameWithoutExtension(dir + "/" + stem + "." + ext) == stem
  {
    var p := dir + "/" + stem + "." + ext;
    var b := stem + "." + ext;
    assert LastIndexOf(p, '/') == |dir| by {
      assert p[|dir|] == '/';
      forall k | |dir| < k < |p|
        ensures p[k] != '/'
      {
        if k <= |dir| + |stem| {
          assert p[k] == stem[k - |dir| - 1];
        } else if k > |dir| + |stem| + 1 {
          assert p[k] == ext[k - |dir| - |stem| - 2];
        }
      }
    }
    assert Basename(p) == b;
    assert LastIndexOf(b, '.') == |stem| by {
      assert b[|stem|] == '.';
      forall k | |stem| < k < |b|
        ensures b[k] != '.'
      {
        assert b[k] == ext[k - |stem| - 1];
      }
    }
    var i :| 0 <= i < |stem| && stem[i] != '.';
    assert b[i] == stem[i];
    assert HasNonDotBefore(b, |stem|);
    assert b[..|stem|] == stem;
  }

  // ---------------------------------------------------------------------
  // create_unique_filename
  // ---------------------------------------------------------------------

  /** The name `create_unique_filename` tries at step `n`: `base.ext` first,
      then `base_1.ext`, `base_2.ext`, ... */
  function Candidate(base: string, ext: string, n: nat): string {
    if n == 0 then base + "." + ext else base + "_" + NatToString(n) + "." + ext
  }

  /** Different steps try different names. */
  lemma CandidateInjective(base: string, ext: string, m: nat, n: nat)
    requires m != n
    ensures Candidate(base, ext, m) != Candidate(base, ext, n)
  {
    var cm := Candidate(base, ext, m);
    var cn := Candidate(base, ext, n);
    if m > 0 && n > 0 && cm == cn {
      var dm := NatToString(m);
      var dn := NatToString(n);
      assert |dm| == |dn|;
      assert cm[|base| + 1..|base| + 1 + |dm|] == dm;
      assert cn[|base| + 1..|base| + 1 + |dn|] == dn;
      NatToStringInjective(m, n);
    }
  }

  /** `create_unique_filename(directory, base_name, extension)`, with the names
      already present in `directory` given as the finite set `existing`. The
      result is not taken, and it is the first candidate that is free: every
      earlier candidate was taken. The loop ends because each round discards
      a distinct member of the finite set `existing`. */
  method CreateUniqueFilename(existing: set<string>, base: string, ext: string) returns (name: string)
    ensures name !in existing
    ensures exists n: nat ::
      (name == Candidate(base, ext, n) && forall j: nat :: j < n ==> Candidate(base, ext, j) in existing)
  {
    var counter: nat := 1;
    name := Candidate(base, ext, 0);
    ghost var tried: set<string> := {};
    while name in existing
      invariant name == Candidate(base, ext, counter - 1)
      invariant forall j: nat :: j < counter - 1 ==> Candidate(base, ext, j) in existing
      invariant tried <= existing
      invariant forall t :: t in tried ==> exists j: nat :: j < counter - 1 && t == Candidate(base, ext, j)
      invariant name !in tried
      decreases existing - tried
    {
      tried := tried + {name};
      name := Candidate(base, ext, counter);
      counter := counter + 1;
      forall t | t in tried
        ensures t != name
      {
        var j: nat :| j < counter - 1 && t == Candidate(base, ext, j);
        CandidateInjective(base, ext, j, counter - 1);
      }
    }
  }

  // ---------------------------------------------------------------------
  // format_file_size (unit selection)
  // ---------------------------------------------------------------------

  /** The units `format_file_size` walks through. */
  const SizeUnits: seq<string> := ["B", "KB", "MB", "GB", "TB"]

  function Pow1024(k: nat): (r: real)
    ensures r >= 1.0
  {
    if k == 0 then 1.0 else 1024.0 * Pow1024(k - 1)
  }

  /** A unit choice: the index into `SizeUnits`, its name and the scaled value printed. */
  datatype SizeChoice = SizeChoice(index: nat, unit: string, scaled: real)

  /** The unit choice of `format_file_size`, with sizes as exact reals. The
      chosen unit `k` is the first one with `size < 1024^(k+1)`: the size is
      below `1024^(k+1)` and, past bytes, at least `1024^k`. There is no unit
      (the source falls off its loop and returns `None`) exactly when the size
      is at least `1024^5`. */
  method FormatFileSizeUnit(size: real) returns (r: Option<SizeChoice>)
    ensures r.None? <==> size >= Pow1024(5)
    ensures r.Some? ==>
      && r.value.index < |SizeUnits|
      && r.value.unit == SizeUnits[r.value.index]
      && r.value.scaled * Pow1024(r.value.index) == size
      && size < Pow1024(r.value.index + 1)
      && (r.value.index > 0 ==> size >= Pow1024(r.value.index))
  {
    var value := size;
    var k: nat := 0;
    while k < |SizeUnits|
      invariant k <= |SizeUnits|
      invariant value * Pow1024(k) == size
      invariant k > 0 ==> size >= Pow1024(k)
    {
      if value < 1024.0 {
        UnitFits(size, value, k);
        return Some(SizeChoice(k, SizeUnits[k], value));
      }
      UnitTooSmall(size, value, k);
      value := value / 1024.0;
      k := k + 1;
    }
    return None;
  }

  /** A scaled value below 1024 at unit `k` means the size is below `1024^(k+1)`,
      and so below `1024^5` for one of the five units. */
  lemma UnitFits(size: real, value: real, k: nat)
    requires k < 5 && value * Pow1024(k) == size && value < 1024.0
    ensures size < Pow1024(k + 1) && size < Pow1024(5)
  {
    var p := Pow1024(k);
    assert Pow1024(k + 1) == 1024.0 * p;
    assert value * p < 1024.0 * p;
    Pow1024Monotonic(k + 1, 5);
  }

  /** A scaled value of at least 1024 at unit `k` means the size is at least
      `1024^(k+1)`, and dividing by 1024 gives the value at unit `k + 1`. */
  lemma UnitTooSmall(size: real, value: real, k: nat)
    requires value * Pow1024(k) == size && value >= 1024.0
    ensures (value / 1024.0) * Pow1024(k + 1) == size && size >= Pow1024(k + 1)
  {
    var p := Pow1024(k);
    assert Pow1024(k + 1) == 1024.0 * p;
    assert value * p >= 1024.0 * p;
    assert (value / 1024.0) * (1024.0 * p) == value * p;
  }

  lemma {:induction false} Pow1024Monotonic(j: nat, k: nat)
    requires j <= k
    ensures Pow1024(j) <= Pow1024(k)
    decreases k - j
  {
    if j < k {
      Pow1024Monotonic(j, k - 1);
    }
  }
}
