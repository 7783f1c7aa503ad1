/**
  The upload script (upload_to_pypi.py): check that the three files that
  carry the package version all say 1.0.2, file by file and stopping at the
  first that does not, and call `upload_to_pypi()` only if the check passes.
  That function validates the built package and prints the upload commands;
  it is not part of this model.
 */
module Upload {
  import opened Wrappers
  import opened Strings
  import opened Release

  /** The version text each file must contain; the version 1.0.2 is fixed in the script. */
  const InitExpected := "__version__ = \"1.0.2\""
  const SetupExpected := "version=\"1.0.2\""
  const PyprojectExpected := "version = \"1.0.2\""

  /**
    An absent file passes; a present one passes when it holds the expected
    text, so a file shorter than that text never passes.
   */
  predicate Passes(content: Option<string>, expected: string)
    ensures content.None? ==> Passes(content, expected)
    ensures Passes(content, expected) && content.Some? ==> |expected| <= |content.value|
  {
    content.None? || Contains(content.value, expected)
  }

  /** The result of the check: all consistent, or the file that stopped it. */
  datatype Consistency = Consistent | Mismatch(file: FileKind)

  /**
    `check_version_consistency()` given the contents of `augmentry/__init__.py`,
    `setup.py` and `pyproject.toml` (`None` for a file that does not exist).
    The files are examined in that order. The check stops at the first
    present file that lacks its expected text; files after it are not looked
    at, and an absent file never stops it.
   */
  function CheckVersionConsistency(init: Option<string>, setup: Option<string>, pyproject: Option<string>): (r: Consistency)
    ensures r.Consistent? <==>
      Passes(init, InitExpected) && Passes(setup, SetupExpected) && Passes(pyproject, PyprojectExpected)
    ensures r == Mismatch(InitPy) <==> !Passes(init, InitExpected)
    ensures r == Mismatch(SetupPy) <==> Passes(init, InitExpected) && !Passes(setup, SetupExpected)
    ensures r == Mismatch(PyprojectToml) <==>
      Passes(init, InitExpected) && Passes(setup, SetupExpected) && !Passes(pyproject, PyprojectExpected)
  {
    if init.Some? && !Contains(init.value, InitExpected) then Mismatch(InitPy)
    else if setup.Some? && !Contains(setup.value, SetupExpected) then Mismatch(SetupPy)
    else if pyproject.Some? && !Contains(pyproject.value, PyprojectExpected) then Mismatch(PyprojectToml)
    else Consistent
  }

  /** Only a file that exists can stop the check. */
  lemma MismatchNeedsFile(init: Option<string>, setup: Option<string>, pyproject: Option<string>)
    ensures CheckVersionConsistency(init, setup, pyproject) == Mismatch(InitPy) ==> init.Some?
    ensures CheckVersionConsistency(init, setup, pyproject) == Mismatch(SetupPy) ==> setup.Some?
    ensures CheckVersionConsistency(init, setup, pyproject) == Mismatch(PyprojectToml) ==> pyproject.Some?
    ensures CheckVersionConsistency(None, None, None) == Consistent
  {
  }

  /** What `main` does after the check: return, or call `upload_to_pypi()`. */
  datatype UploadStep = Stopped | UploadStepReached

  /** `main`: `upload_to_pypi()` is called exactly when every present file says 1.0.2. */
  function UploadMain(init: Option<string>, setup: Option<string>, pyproject: Option<string>): (r: UploadStep)
    ensures r == UploadStepReached <==>
      Passes(init, InitExpected) && Passes(setup, SetupExpected) && Passes(pyproject, PyprojectExpected)
  {
    if CheckVersionConsistency(init, setup, pyproject).Consistent? then UploadStepReached else Stopped
  }

  /**
    The text the check expects for each kind of file: kind by kind it is the
    very text the release tool writes for version 1.0.2.
   */
  function Expected(kind: FileKind): (e: string)
    ensures e == VersionPattern(kind, "1.0.2")
  {
    assert InitExpected == "__version__ = \"" + "1.0.2" + "\"";
    assert SetupExpected == "version=\"" + "1.0.2" + "\"";
    assert PyprojectExpected == "version = \"" + "1.0.2" + "\"";
    match kind
    case InitPy => InitExpected
    case SetupPy => SetupExpected
    case PyprojectToml => PyprojectExpected
  }

  /** A file that the release tool rewrote to 1.0.2 passes its consistency check. */
  lemma UpdatedFilePasses(path: string, content: Option<string>, oldVersion: string)
    requires UpdateVersionInFile(path, content, oldVersion, "1.0.2").ok
    ensures Passes(UpdateVersionInFile(path, content, oldVersion, "1.0.2").file, Expected(KindOf(path).value))
  {
    UpdateSucceeds(path, content, oldVersion, "1.0.2");
    assert Expected(KindOf(path).value) == VersionPattern(KindOf(path).value, "1.0.2");
  }

  /** After a release loop that rewrote every file to 1.0.2, each listed file passes its check. */
  lemma {:induction false} ListedFilePasses(fs: map<string, string>, current: string, i: nat)
    requires i < |FilesToUpdate|
    requires UpdateAll(fs, FilesToUpdate, current, "1.0.2").allUpdated
    ensures KindOf(FilesToUpdate[i]).Some? &&
      Passes(Lookup(UpdateAll(fs, FilesToUpdate, current, "1.0.2").files, FilesToUpdate[i]),
             Expected(KindOf(FilesToUpdate[i]).value))
  {
    var path := FilesToUpdate[i];
    StandardPathKinds();
    assert FilesToUpdate[0] == InitPath && FilesToUpdate[1] == SetupPath && FilesToUpdate[2] == PyprojectPath;
    FilesToUpdateDistinct();
    UpdateAllPerFile(fs, FilesToUpdate, current, "1.0.2");
    assert UpdateVersionInFile(path, Lookup(fs, path), current, "1.0.2").ok;
    assert path in FilesToUpdate;
    UpdatedFilePasses(path, Lookup(fs, path), current);
  }

  /**
    A release run that rewrote every file to 1.0.2 leaves a directory on which
    the upload script's check passes, so `upload_to_pypi()` is called.
   */
  lemma {:induction false} ReleaseThenUpload(fs: map<string, string>, current: string)
    requires UpdateAll(fs, FilesToUpdate, current, "1.0.2").allUpdated
    ensures var after := UpdateAll(fs, FilesToUpdate, current, "1.0.2").files;
      CheckVersionConsistency(Lookup(after, InitPath), Lookup(after, SetupPath), Lookup(after, PyprojectPath)) == Consistent
  {
    StandardPathKinds();
    ListedFilePasses(fs, current, 0);
    ListedFilePasses(fs, current, 1);
    ListedFilePasses(fs, current, 2);
  }
}
