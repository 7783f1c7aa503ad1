/**
  The release tool (release.py): read the current version from the package's
  `__init__.py`, bump it, rewrite the version text in the three files that
  carry it, and go on to building only if every rewrite succeeded.

  The working directory is a map from relative path to file content; a path
  that is not a key is a file that does not exist. Reading a file is a lookup
  and writing it is an update of the map.
 */
module Release {
  import opened Wrappers
  import opened Strings

  // ---------------------------------------------------------------------
  // Version numbers (increment_version)
  // ---------------------------------------------------------------------

  /** A normal version number `MAJOR.MINOR.PATCH` (Semantic Versioning 2.0.0, item 2). */
  datatype Version = Version(major: nat, minor: nat, patch: nat)

  /**
    `major, minor, patch = map(int, version.split('.'))`: exactly three
    dot-separated fields, each of which `int()` accepts; anything else raises.
   */
  function ParseVersion(s: string): (r: Option<Version>)
    ensures r.Some? <==>
      |Split(s, '.')| == 3 && forall f <- Split(s, '.') :: IsDigits(f)
    ensures r.Some? ==>
      var fields := Split(s, '.');
      Some(r.value.major) == ParseNat(fields[0]) &&
      Some(r.value.minor) == ParseNat(fields[1]) &&
      Some(r.value.patch) == ParseNat(fields[2])
  {
    var fields := Split(s, '.');
    if |fields| != 3 then None
    else
      match (ParseNat(fields[0]), ParseNat(fields[1]), ParseNat(fields[2]))
      case (Some(major), Some(minor), Some(patch)) => Some(Version(major, minor, patch))
      case _ => None
  }

  /** `f"{major}.{minor}.{patch}"`: splitting it on `.` gives back the three printed numbers. */
  function FormatVersion(v: Version): (r: string)
    ensures Split(r, '.') == [NatToString(v.major), NatToString(v.minor), NatToString(v.patch)]
  {
    var a, b, c := NatToString(v.major), NatToString(v.minor), NatToString(v.patch);
    NatToStringHasNoDot(v.major);
    NatToStringHasNoDot(v.minor);
    NatToStringHasNoDot(v.patch);
    SplitAtSep(a, '.', b + ['.'] + c);
    SplitAtSep(b, '.', c);
    SplitWithoutSep(c, '.');
    assert a + "." + b + "." + c == a + ['.'] + (b + ['.'] + c);
    a + "." + b + "." + c
  }

  /**
    What `increment_version` does to the three numbers for a given `part`:
    each recognised part moves the version forward, any other leaves it alone.
   */
  function Bumped(v: Version, part: string): (r: Version)
    ensures part in {"major", "minor", "patch"} ==> Precedes(v, r)
    ensures part !in {"major", "minor", "patch"} ==> r == v
    ensures part == "major" ==> v.major < r.major
    ensures part == "minor" ==> (r.major, r.minor) != (v.major, v.minor)
  {
    if part == "major" then Version(v.major + 1, 0, 0)
    else if part == "minor" then Version(v.major, v.minor + 1, 0)
    else if part == "patch" then Version(v.major, v.minor, v.patch + 1)
    else v
  }

  /** A formatted version number parses back to the same three numbers. */
  lemma {:induction false} FormatThenParse(v: Version)
    ensures ParseVersion(FormatVersion(v)) == Some(v)
  {
    NatToStringParses(v.major);
    NatToStringParses(v.minor);
    NatToStringParses(v.patch);
  }

  /** A formatted version is a non-empty text without quotes. */
  lemma FormatVersionQuoteFree(v: Version)
    ensures |FormatVersion(v)| > 0 && '"' !in FormatVersion(v)
  {
    var a, b, c := NatToString(v.major), NatToString(v.minor), NatToString(v.patch);
    NatToStringParses(v.major);
    NatToStringParses(v.minor);
    NatToStringParses(v.patch);
    var s := FormatVersion(v);
    assert s == a + "." + b + "." + c;
    forall i | 0 <= i < |s| ensures s[i] != '"' {
      if i < |a| { assert s[i] == a[i] && IsDigit(a[i]); }
      else if i == |a| { assert s[i] == '.'; }
      else if i < |a| + 1 + |b| { assert s[i] == b[i - |a| - 1] && IsDigit(b[i - |a| - 1]); }
      else if i == |a| + 1 + |b| { assert s[i] == '.'; }
      else { assert s[i] == c[i - |a| - |b| - 2] && IsDigit(c[i - |a| - |b| - 2]); }
    }
  }

  /**
    `increment_version(version, part)`: `None` stands for the `ValueError` that
    parsing raises. On success the text returned is the bumped version, and it
    parses back to the bumped numbers.
   */
  method IncrementVersion(version: string, part: string) returns (r: Option<string>)
    ensures r.Some? <==> ParseVersion(version).Some?
    ensures r.Some? ==> r.value == FormatVersion(Bumped(ParseVersion(version).value, part))
    ensures r.Some? ==> ParseVersion(r.value) == Some(Bumped(ParseVersion(version).value, part))
  {
    var parsed := ParseVersion(version);
    if parsed.None? {
      return None;
    }
    var major, minor, patch := parsed.value.major, parsed.value.minor, parsed.value.patch;
    if part == "major" {
      major := major + 1;
      minor := 0;
      patch := 0;
    } else if part == "minor" {
      minor := minor + 1;
      patch := 0;
    } else if part == "patch" {
      patch := patch + 1;
    }
    var next := Version(major, minor, patch);
    assert next == Bumped(parsed.value, part);
    FormatThenParse(next);
    r := Some(FormatVersion(next));
  }

  /** Precedence of normal versions (Semantic Versioning 2.0.0, item 11). */
  predicate Precedes(a: Version, b: Version) {
    a.major < b.major ||
    (a.major == b.major && (a.minor < b.minor || (a.minor == b.minor && a.patch < b.patch)))
  }

  /** A patch bump gives the immediate successor: no version lies strictly between (item 6). */
  lemma PatchBumpIsSuccessor(v: Version, w: Version)
    requires Precedes(v, w)
    ensures !Precedes(w, Bumped(v, "patch"))
  {
  }

  /**
    A minor bump resets the patch number: it gives the least version that
    changes MAJOR.MINOR (item 7).
   */
  lemma MinorBumpIsLeast(v: Version, w: Version)
    requires Precedes(v, w) && (w.major != v.major || w.minor != v.minor)
    ensures !Precedes(w, Bumped(v, "minor"))
  {
  }

  /**
    A major bump resets minor and patch: it gives the least version with a
    larger MAJOR (item 8).
   */
  lemma MajorBumpIsLeast(v: Version, w: Version)
    requires v.major < w.major
    ensures !Precedes(w, Bumped(v, "major"))
  {
  }

  // ---------------------------------------------------------------------
  // Version text in files (update_version_in_file)
  // ---------------------------------------------------------------------

  /** The three kinds of file whose version text the tool knows how to rewrite. */
  datatype FileKind = InitPy | SetupPy | PyprojectToml

  /** The file name each kind of file is recognised by. */
  function FileName(kind: FileKind): string {
    match kind
    case InitPy => "__init__.py"
    case SetupPy => "setup.py"
    case PyprojectToml => "pyproject.toml"
  }

  /** The kind is chosen from the end of the path, tested in this order. */
  function KindOf(path: string): Option<FileKind> {
    if EndsWith(path, "__init__.py") then Some(InitPy)
    else if EndsWith(path, "setup.py") then Some(SetupPy)
    else if EndsWith(path, "pyproject.toml") then Some(PyprojectToml)
    else None
  }

  /**
    No path ends with two of the file names, so the order of the tests does
    not matter: a path is of a kind exactly when it ends with that kind's name.
   */
  lemma KindOfByName(path: string, kind: FileKind)
    ensures KindOf(path) == Some(kind) <==> EndsWith(path, FileName(kind))
  {
    var n := |path|;
    if EndsWith(path, "__init__.py") {
      assert path[n - 3..] == "__init__.py"[8..];
      assert path[n - 4] == '_';
    }
    if EndsWith(path, "setup.py") {
      assert path[n - 3..] == "setup.py"[5..];
      assert path[n - 4] == 'p';
    }
    if EndsWith(path, "pyproject.toml") {
      assert path[n - 1] == 'l';
    }
  }

  /** The literal text that carries version `v` in a file of the given kind. */
  function VersionPattern(kind: FileKind, v: string): (pat: string)
    ensures |pat| > |v| && pat[|pat| - |v| - 1..|pat| - 1] == v && pat[|pat| - 1] == '"'
  {
    match kind
    case InitPy => "__version__ = \"" + v + "\""
    case SetupPy => "version=\"" + v + "\""
    case PyprojectToml => "version = \"" + v + "\""
  }

  /**
    What `update_version_in_file` reports (`ok`) and the content of the file
    once it returns (`file`; `None` when the file does not exist).
   */
  datatype Update = Update(ok: bool, file: Option<string>)

  /**
    `update_version_in_file(path, oldVersion, newVersion)` on a file whose
    content is `content`. A missing file reports failure and stays missing; a
    name without a known suffix reports failure; and whenever it fails
    nothing is written. When it succeeds is stated by `UpdateSucceeds`.
   */
  function UpdateVersionInFile(path: string, content: Option<string>, oldVersion: string, newVersion: string): (u: Update)
    ensures content.None? ==> u == Update(false, None)
    ensures KindOf(path).None? ==> u == Update(false, content)
    ensures !u.ok ==> u.file == content
  {
    if content.None? then Update(false, None)
    else if KindOf(path).None? then Update(false, content)
    else
      var kind := KindOf(path).value;
      var pat := VersionPattern(kind, oldVersion);
      var rep := VersionPattern(kind, newVersion);
      if Contains(content.value, pat) then Update(true, Some(ReplaceAll(content.value, pat, rep)))
      else Update(false, content)
  }

  /**
    The update succeeds exactly when the file exists, its name has a known
    suffix, and the old version text occurs in it; then every occurrence is
    rewritten and the new version text is present.
   */
  lemma UpdateSucceeds(path: string, content: Option<string>, oldVersion: string, newVersion: string)
    ensures UpdateVersionInFile(path, content, oldVersion, newVersion).ok <==>
      content.Some? && KindOf(path).Some? &&
      Contains(content.value, VersionPattern(KindOf(path).value, oldVersion))
    ensures UpdateVersionInFile(path, content, oldVersion, newVersion).ok ==>
      var pat := VersionPattern(KindOf(path).value, oldVersion);
      var rep := VersionPattern(KindOf(path).value, newVersion);
      var file := UpdateVersionInFile(path, content, oldVersion, newVersion).file;
      file == Some(ReplaceAll(content.value, pat, rep)) && Contains(file.value, rep)
  {
    if content.Some? && KindOf(path).Some? {
      var pat := VersionPattern(KindOf(path).value, oldVersion);
      if Contains(content.value, pat) {
        ReplacePresent(content.value, pat, VersionPattern(KindOf(path).value, newVersion));
      }
    }
  }

  /** Rewriting a version to itself leaves every file as it was. */
  lemma UpdateToSameVersion(path: string, content: Option<string>, v: string)
    ensures UpdateVersionInFile(path, content, v, v).file == content
  {
    var u := UpdateVersionInFile(path, content, v, v);
    if u.ok {
      ReplaceIdentity(content.value, VersionPattern(KindOf(path).value, v));
    }
  }

  // ---------------------------------------------------------------------
  // Reading the current version (get_current_version)
  // ---------------------------------------------------------------------

  /** The literal prefix of the regular expression `__version__ = "([^"]+)"`. */
  const VersionAssign := "__version__ = \""

  /** The end of the run of non-quote characters that starts at `j`. */
  function RunEnd(s: string, j: nat): (e: nat)
    requires j <= |s|
    ensures j <= e <= |s|
    ensures forall m | j <= m < e :: s[m] != '"'
    ensures e < |s| ==> s[e] == '"'
    decreases |s| - j
  {
    if j == |s| || s[j] == '"' then j else RunEnd(s, j + 1)
  }

  /**
    The regular expression matches at `k`: the literal prefix, then one or more
    non-quote characters (taken greedily), then a closing quote.
   */
  predicate MatchAt(s: string, k: nat)
    ensures MatchAt(s, k) ==> k + |VersionAssign| + 2 <= |s|
  {
    OccursAt(s, VersionAssign, k) &&
    var e := RunEnd(s, k + |VersionAssign|);
    k + |VersionAssign| < e < |s|
  }

  /** The text of the capture group of a match at `k`. */
  function Capture(s: string, k: nat): (v: string)
    requires MatchAt(s, k)
    ensures |v| > 0 && '"' !in v
  {
    s[k + |VersionAssign|..RunEnd(s, k + |VersionAssign|)]
  }

  /** `re.search`: the leftmost position at or after `k` where the expression matches. */
  function FirstMatch(s: string, k: nat): (r: Option<nat>)
    ensures r.Some? ==>
      k <= r.value && MatchAt(s, r.value) &&
      forall j: nat | k <= j < r.value :: !MatchAt(s, j)
    ensures r.None? ==> forall j: nat | k <= j :: !MatchAt(s, j)
    decreases |s| - k
  {
    if k >= |s| then None
    else if MatchAt(s, k) then Some(k)
    else FirstMatch(s, k + 1)
  }

  /** A match at `k` is an occurrence of the `__init__.py` version text of its capture. */
  lemma MatchIsPattern(s: string, k: nat)
    requires MatchAt(s, k)
    ensures |Capture(s, k)| > 0 && '"' !in Capture(s, k)
    ensures OccursAt(s, VersionPattern(InitPy, Capture(s, k)), k)
  {
    var n := |VersionAssign|;
    var e := RunEnd(s, k + n);
    var v := Capture(s, k);
    assert s[k..e + 1] == s[k..k + n] + v + [s[e]];
  }

  /** Conversely, every occurrence of a well-formed version text is a match. */
  lemma PatternIsMatch(s: string, v: string, k: nat)
    requires |v| > 0 && '"' !in v
    requires OccursAt(s, VersionPattern(InitPy, v), k)
    ensures MatchAt(s, k) && Capture(s, k) == v
  {
    var n := |VersionAssign|;
    var pat := VersionPattern(InitPy, v);
    assert pat == VersionAssign + v + "\"";
    assert s[k..k + n] == pat[..n];
    forall m | k + n <= m < k + n + |v| ensures s[m] != '"' {
      assert s[m] == pat[m - k] == v[m - k - n];
    }
    assert s[k + n + |v|] == pat[n + |v|];
    RunEndAt(s, k + n, k + n + |v|);
    assert s[k + n..k + n + |v|] == v by {
      forall m | 0 <= m < |v| ensures s[k + n + m] == v[m] {
        assert s[k + n + m] == s[k..k + |pat|][n + m] == pat[n + m];
      }
    }
  }

  /** `RunEnd` is pinned down by a quote that only non-quotes precede. */
  lemma RunEndAt(s: string, j: nat, e: nat)
    requires j <= e < |s| && s[e] == '"'
    requires forall m | j <= m < e :: s[m] != '"'
    ensures RunEnd(s, j) == e
  {
  }

  /**
    Two texts that agree up to a quote at `n - 1` agree on whether the
    expression matches at any `k` whose prefix ends before that quote.
   */
  lemma MatchLocal(s: string, t: string, n: nat, k: nat)
    requires 0 < n <= |s| && n <= |t| && s[..n] == t[..n] && s[n - 1] == '"'
    requires k + |VersionAssign| < n
    ensures MatchAt(s, k) == MatchAt(t, k)
  {
    var j := k + |VersionAssign|;
    forall m | 0 <= m < n ensures s[m] == t[m] {
      assert s[m] == s[..n][m] && t[m] == t[..n][m];
    }
    assert s[k..j] == t[k..j];
    var es := RunEnd(s, j);
    assert es < n;
    RunEndAt(t, j, es);
  }

  /** Where `get_current_version` looks. */
  const InitPath := "augmentry/__init__.py"

  /**
    `get_current_version()` given the content of `augmentry/__init__.py`
    (`None` when that file does not exist): the capture of the first match.
    The version found is non-empty, quote-free and sits in the file as
    `__version__ = "<version>"`; when nothing is found, no such text occurs.
   */
  function GetCurrentVersion(init: Option<string>): (r: Option<string>)
    ensures init.None? ==> r.None?
    ensures r.Some? ==>
      |r.value| > 0 && '"' !in r.value && Contains(init.value, VersionPattern(InitPy, r.value))
    ensures init.Some? && r.None? ==>
      forall v | |v| > 0 && '"' !in v :: !Contains(init.value, VersionPattern(InitPy, v))
    ensures r.Some? ==>
      exists k: nat ::
        OccursAt(init.value, VersionPattern(InitPy, r.value), k) &&
        forall j: nat, w | j < k && |w| > 0 && '"' !in w :: !OccursAt(init.value, VersionPattern(InitPy, w), j)
  {
    match init
    case None => None
    case Some(content) =>
      match FirstMatch(content, 0)
      case None =>
        NoMatchNoPattern(content);
        None
      case Some(k) =>
        MatchIsPattern(content, k);
        FirstMatchLeftmost(content, k);
        Some(Capture(content, k))
  }

  /** No well-formed version text occurs before the first match. */
  lemma FirstMatchLeftmost(s: string, k: nat)
    requires FirstMatch(s, 0) == Some(k)
    ensures forall j: nat, w | j < k && |w| > 0 && '"' !in w :: !OccursAt(s, VersionPattern(InitPy, w), j)
  {
    forall j: nat, w | j < k && |w| > 0 && '"' !in w ensures !OccursAt(s, VersionPattern(InitPy, w), j) {
      if OccursAt(s, VersionPattern(InitPy, w), j) { PatternIsMatch(s, w, j); }
    }
  }

  /** No match means no well-formed version text anywhere. */
  lemma NoMatchNoPattern(s: string)
    requires FirstMatch(s, 0).None?
    ensures forall v | |v| > 0 && '"' !in v :: !Contains(s, VersionPattern(InitPy, v))
  {
    forall v | |v| > 0 && '"' !in v ensures !Contains(s, VersionPattern(InitPy, v)) {
      if Contains(s, VersionPattern(InitPy, v)) {
        var k: nat :| k <= |s| && OccursAt(s, VersionPattern(InitPy, v), k);
        PatternIsMatch(s, v, k);
      }
    }
  }

  /**
    Round trip: when `get_current_version` reads `oldVersion` from an
    `__init__.py`, rewriting it to a well-formed `newVersion` succeeds and
    `get_current_version` then reads `newVersion`.
   */
  lemma {:induction false} UpdateThenGetVersion(path: string, content: string, oldVersion: string, newVersion: string)
    requires KindOf(path) == Some(InitPy)
    requires GetCurrentVersion(Some(content)) == Some(oldVersion)
    requires |newVersion| > 0 && '"' !in newVersion
    ensures UpdateVersionInFile(path, Some(content), oldVersion, newVersion).ok
    ensures GetCurrentVersion(UpdateVersionInFile(path, Some(content), oldVersion, newVersion).file) == Some(newVersion)
  {
    var i :| FirstMatch(content, 0) == Some(i) && Capture(content, i) == oldVersion;
    var pat := VersionPattern(InitPy, oldVersion);
    var rep := VersionPattern(InitPy, newVersion);
    FirstMatchIsFirstOccurrence(content, i);
    assert Contains(content, pat);
    ReplaceAtFirst(content, pat, rep, i);
    var t := ReplaceAll(content, pat, rep);
    assert UpdateVersionInFile(path, Some(content), oldVersion, newVersion) == Update(true, Some(t));
    RewrittenFirstMatch(content, i, newVersion, ReplaceAll(content[i + |pat|..], pat, rep));
  }

  /**
    Putting a well-formed version text in place of the first match leaves a
    text whose first match is at the same place and captures the new version.
   */
  lemma RewrittenFirstMatch(s: string, i: nat, newVersion: string, rest: string)
    requires FirstMatch(s, 0) == Some(i)
    requires |newVersion| > 0 && '"' !in newVersion
    ensures var t := s[..i] + VersionPattern(InitPy, newVersion) + rest;
      GetCurrentVersion(Some(t)) == Some(newVersion)
  {
    var t := s[..i] + VersionPattern(InitPy, newVersion) + rest;
    RewrittenAgrees(s, i, newVersion, rest);
    var n := i + |VersionAssign|;
    forall k: nat | k < i ensures !MatchAt(t, k) {
      MatchLocal(s, t, n, k);
    }
    PatternIsMatch(t, newVersion, i);
    assert FirstMatch(t, 0) == Some(i);
  }

  /** The first match is also the first occurrence of the version text it captures. */
  lemma FirstMatchIsFirstOccurrence(s: string, i: nat)
    requires FirstMatch(s, 0) == Some(i)
    ensures OccursAt(s, VersionPattern(InitPy, Capture(s, i)), i)
    ensures forall j: nat | j < i :: !OccursAt(s, VersionPattern(InitPy, Capture(s, i)), j)
  {
    var v := Capture(s, i);
    MatchIsPattern(s, i);
    forall j: nat | j < i ensures !OccursAt(s, VersionPattern(InitPy, v), j) {
      if OccursAt(s, VersionPattern(InitPy, v), j) { PatternIsMatch(s, v, j); }
    }
  }

  /**
    Putting the new version text at `i` keeps everything before `i`, and up to
    the opening quote of the text, as it was in a content that has a match at `i`.
   */
  lemma RewrittenAgrees(s: string, i: nat, newVersion: string, rest: string)
    requires MatchAt(s, i)
    ensures var t := s[..i] + VersionPattern(InitPy, newVersion) + rest;
      var n := i + |VersionAssign|;
      n <= |t| && t[..n] == s[..n] && s[n - 1] == '"' &&
      OccursAt(t, VersionPattern(InitPy, newVersion), i)
  {
    var rep := VersionPattern(InitPy, newVersion);
    var t := s[..i] + rep + rest;
    var n := i + |VersionAssign|;
    assert rep[..|VersionAssign|] == VersionAssign;
    assert t[..n] == s[..i] + VersionAssign;
    assert s[..n] == s[..i] + s[i..n];
    assert t[i..i + |rep|] == rep;
  }

  // ---------------------------------------------------------------------
  // The release run (main)
  // ---------------------------------------------------------------------

  const SetupPath := "setup.py"
  const PyprojectPath := "pyproject.toml"

  /** Each path in `files_to_update` is rewritten with the pattern its name calls for. */
  lemma StandardPathKinds()
    ensures KindOf(InitPath) == Some(InitPy)
    ensures KindOf(SetupPath) == Some(SetupPy)
    ensures KindOf(PyprojectPath) == Some(PyprojectToml)
  {
    assert EndsWith(InitPath, "__init__.py") by {
      assert InitPath[|InitPath| - 11..] == "__init__.py";
    }
    assert !EndsWith(PyprojectPath, "__init__.py") by {
      assert PyprojectPath[|PyprojectPath| - 11..][0] == 'r';
    }
    assert !EndsWith(PyprojectPath, "setup.py") by {
      assert PyprojectPath[|PyprojectPath| - 8..][0] == 'e';
    }
    assert EndsWith(PyprojectPath, "pyproject.toml") by {
      assert PyprojectPath[|PyprojectPath| - 14..] == PyprojectPath;
    }
    assert EndsWith(SetupPath, "setup.py") by {
      assert SetupPath[|SetupPath| - 8..] == SetupPath;
    }
  }

  /** `files_to_update`, in the order they are attempted. */
  const FilesToUpdate := [InitPath, SetupPath, PyprojectPath]

  /** The three paths are different files (they already differ in length). */
  lemma FilesToUpdateDistinct()
    ensures Distinct(FilesToUpdate)
  {
    assert |InitPath| == 21 && |SetupPath| == 8 && |PyprojectPath| == 14;
  }

  /** Reading a path (`os.path.exists`, then `read`): its content, or `None` when no such file exists. */
  function Lookup(fs: map<string, string>, path: string): (r: Option<string>)
  {
    if path in fs then Some(fs[path]) else None
  }

  predicate Distinct(paths: seq<string>) {
    forall i, j | 0 <= i < j < |paths| :: paths[i] != paths[j]
  }

  /** The directory after an update loop, and whether every update succeeded. */
  datatype Batch = Batch(files: map<string, string>, allUpdated: bool)

  /**
    The update loop of `main` over `paths`, one file after the other; what it
    does to each file is stated by `UpdateAllPerFile` and `UpdateAllStep`.
   */
  function UpdateAll(fs: map<string, string>, paths: seq<string>, oldVersion: string, newVersion: string): Batch
    decreases |paths|
  {
    if paths == [] then Batch(fs, true)
    else
      var b := UpdateAll(fs, paths[..|paths| - 1], oldVersion, newVersion);
      var p := paths[|paths| - 1];
      var u := UpdateVersionInFile(p, Lookup(b.files, p), oldVersion, newVersion);
      Batch(if u.ok then b.files[p := u.file.value] else b.files, b.allUpdated && u.ok)
  }

  /**
    Every path is attempted, whatever happened to the ones before it: each
    file ends up as its own update leaves it, other files are untouched, and
    the loop reports success exactly when every single update succeeded.
   */
  lemma {:induction false} UpdateAllPerFile(fs: map<string, string>, paths: seq<string>, oldVersion: string, newVersion: string)
    requires Distinct(paths)
    ensures forall p ::
              Lookup(UpdateAll(fs, paths, oldVersion, newVersion).files, p) ==
              if p in paths then UpdateVersionInFile(p, Lookup(fs, p), oldVersion, newVersion).file
              else Lookup(fs, p)
    ensures UpdateAll(fs, paths, oldVersion, newVersion).allUpdated <==>
      forall i | 0 <= i < |paths| :: UpdateVersionInFile(paths[i], Lookup(fs, paths[i]), oldVersion, newVersion).ok
  {
    if paths != [] {
      var front := paths[..|paths| - 1];
      var last := paths[|paths| - 1];
      assert Distinct(front);
      UpdateAllPerFile(fs, front, oldVersion, newVersion);
      assert last !in front;
      assert paths == front + [last];
      var b := UpdateAll(fs, front, oldVersion, newVersion);
      assert Lookup(b.files, last) == Lookup(fs, last);
      var u := UpdateVersionInFile(last, Lookup(fs, last), oldVersion, newVersion);
      assert UpdateAll(fs, paths, oldVersion, newVersion) ==
        Batch(if u.ok then b.files[last := u.file.value] else b.files, b.allUpdated && u.ok);
      assert forall i | 0 <= i < |front| :: front[i] == paths[i];
    }
  }

  /** One more turn of the update loop. */
  lemma UpdateAllStep(fs: map<string, string>, paths: seq<string>, i: nat, oldVersion: string, newVersion: string)
    requires i < |paths|
    ensures var b := UpdateAll(fs, paths[..i], oldVersion, newVersion);
      var u := UpdateVersionInFile(paths[i], Lookup(b.files, paths[i]), oldVersion, newVersion);
      UpdateAll(fs, paths[..i + 1], oldVersion, newVersion) ==
        Batch(if u.ok then b.files[paths[i] := u.file.value] else b.files, b.allUpdated && u.ok)
  {
    assert paths[..i + 1][..i] == paths[..i];
  }

  /**
    What the update loop of `main` does once the next version is the patch
    bump of the one read from `__init__.py`: every file ends as its own update
    leaves it, the flag says whether all of them succeeded, and `__init__.py`
    then reads as the new version.
   */
  lemma ReleaseLoopEffect(fs: map<string, string>, current: string, next: string)
    requires GetCurrentVersion(Lookup(fs, InitPath)) == Some(current)
    requires ParseVersion(current).Some?
    requires next == FormatVersion(Bumped(ParseVersion(current).value, "patch"))
    ensures forall p :: Lookup(UpdateAll(fs, FilesToUpdate, current, next).files, p) ==
              if p in FilesToUpdate then UpdateVersionInFile(p, Lookup(fs, p), current, next).file
              else Lookup(fs, p)
    ensures UpdateAll(fs, FilesToUpdate, current, next).allUpdated <==>
      forall i | 0 <= i < |FilesToUpdate| :: UpdateVersionInFile(FilesToUpdate[i], Lookup(fs, FilesToUpdate[i]), current, next).ok
    ensures GetCurrentVersion(Lookup(UpdateAll(fs, FilesToUpdate, current, next).files, InitPath)) == Some(next)
  {
    FilesToUpdateDistinct();
    UpdateAllPerFile(fs, FilesToUpdate, current, next);
    StandardPathKinds();
    FormatVersionQuoteFree(Bumped(ParseVersion(current).value, "patch"));
    UpdateThenGetVersion(InitPath, Lookup(fs, InitPath).value, current, next);
  }

  /**
    The `for path in files_to_update` loop of `main`: every path is attempted
    in turn, even after a failure, and the flag is cleared by any failure.
   */
  method UpdateFiles(fs: map<string, string>, current: string, next: string) returns (fs': map<string, string>, allUpdated: bool)
    ensures Batch(fs', allUpdated) == UpdateAll(fs, FilesToUpdate, current, next)
  {
    fs' := fs;
    allUpdated := true;
    var i := 0;
    while i < |FilesToUpdate|
      invariant 0 <= i <= |FilesToUpdate|
      invariant Batch(fs', allUpdated) == UpdateAll(fs, FilesToUpdate[..i], current, next)
    {
      var path := FilesToUpdate[i];
      var u := UpdateVersionInFile(path, Lookup(fs', path), current, next);
      if u.ok {
        fs' := fs'[path := u.file.value];
      } else {
        allUpdated := false;
      }
      UpdateAllStep(fs, FilesToUpdate, i, current, next);
      i := i + 1;
    }
    assert FilesToUpdate[..i] == FilesToUpdate;
  }

  /** How a release run ends. */
  datatype ReleaseOutcome =
    | NoCurrentVersion                              // "Could not determine current version"
    | MalformedVersion(current: string)             // increment_version raises ValueError
    | UpdateFailed(current: string, next: string)   // "Failed to update all version files"
    | ReadyToBuild(current: string, next: string)   // goes on to build_package

  /**
    `main` up to the build step, on the working directory `fs`. It reads the
    current version, bumps the patch number, attempts the rewrite in every
    file of `files_to_update` even after a failure, and is ready to build only
    if every rewrite succeeded.
   */
  method RunRelease(fs: map<string, string>) returns (outcome: ReleaseOutcome, fs': map<string, string>)
    ensures outcome.NoCurrentVersion? <==> GetCurrentVersion(Lookup(fs, InitPath)).None?
    ensures outcome.MalformedVersion? <==>
      GetCurrentVersion(Lookup(fs, InitPath)).Some? &&
      ParseVersion(GetCurrentVersion(Lookup(fs, InitPath)).value).None?
    ensures outcome.NoCurrentVersion? || outcome.MalformedVersion? ==> fs' == fs
    ensures outcome.UpdateFailed? || outcome.ReadyToBuild? ==>
      && GetCurrentVersion(Lookup(fs, InitPath)) == Some(outcome.current)
      && ParseVersion(outcome.current).Some?
      && ParseVersion(outcome.next) == Some(Bumped(ParseVersion(outcome.current).value, "patch"))
      && fs' == UpdateAll(fs, FilesToUpdate, outcome.current, outcome.next).files
      && (forall p :: Lookup(fs', p) ==
            if p in FilesToUpdate then UpdateVersionInFile(p, Lookup(fs, p), outcome.current, outcome.next).file
            else Lookup(fs, p))
      && (outcome.ReadyToBuild? <==>
            forall i | 0 <= i < |FilesToUpdate| ::
              UpdateVersionInFile(FilesToUpdate[i], Lookup(fs, FilesToUpdate[i]), outcome.current, outcome.next).ok)
      && outcome.next == FormatVersion(Bumped(ParseVersion(outcome.current).value, "patch"))
      && GetCurrentVersion(Lookup(fs', InitPath)) == Some(outcome.next)
  {
    fs' := fs;
    var current := GetCurrentVersion(Lookup(fs, InitPath));
    if current.None? {
      return NoCurrentVersion, fs';
    }
    var next := IncrementVersion(current.value, "patch");
    if next.None? {
      return MalformedVersion(current.value), fs';
    }
    var allUpdated;
    fs', allUpdated := UpdateFiles(fs, current.value, next.value);
    ReleaseLoopEffect(fs, current.value, next.value);
    if allUpdated {
      outcome := ReadyToBuild(current.value, next.value);
    } else {
      outcome := UpdateFailed(current.value, next.value);
    }
  }
}
