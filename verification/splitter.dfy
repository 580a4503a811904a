/**
 * `PhpUnitXmlManager::createPhpUnitXml` and the `splitTests*` entry points: resolve
 * every declared test in list order, attach each file to the first test that
 * resolves to it, and hand the tests to the suite builder; or report why not.
 */
module Splitter {
  import opened Wrappers
  import opened Resolution

  /** The exceptions `createPhpUnitXml` lets out. */
  datatype SplitError = TestListMissing(listFile: string) | Resolve(error: ResolveError)

  /**
   * What is handed on after resolution: every loaded test to `buildSuites` with the
   * number of balanced groups, and the group number for `addSpecialCaseTests`.
   * The suite builder and the XML writer are not part of this model.
   */
  datatype SuitePlan = SuitePlan(tests: seq<TestDescriptor>, balancedGroups: int, specialCaseGroup: int)

  /** `createPhpUnitXml` either writes `phpunit.xml` from a plan or raises an exception. */
  datatype CreateOutcome = Saved(plan: SuitePlan) | Aborted(error: SplitError)

  /**
   * What the file system shows the manager: the scan of the root directory, the
   * declared-test lists by file name (as loaded, one object per entry), and the
   * contents of the source files.
   */
  datatype Workspace = Workspace(index: FileIndex, testLists: map<string, seq<TestDescriptor>>, contents: FileContents)

  /** The descriptor objects loaded from `listFile` (none when the list is missing): what the walk may update. */
  function Loaded(ws: Workspace, listFile: string): seq<TestDescriptor>
  {
    if listFile in ws.testLists then ws.testLists[listFile] else []
  }

  /** The loader creates a separate object for every entry of the list. */
  predicate Distinct(tests: seq<TestDescriptor>) {
    forall i, j :: 0 <= i < j < |tests| ==> tests[i] != tests[j]
  }

  /** Freshly loaded descriptors carry no file name yet. */
  predicate Unattached(tests: seq<TestDescriptor>)
    reads tests
  {
    forall i :: 0 <= i < |tests| ==> tests[i].filename == None
  }

  /** Test `i` is the first in the list to resolve to its file, so `seenFiles` does not hold that file yet. */
  predicate FirstOccurrence(files: seq<Option<Path>>, i: nat)
    requires i < |files|
  {
    files[i].Some? && forall j :: 0 <= j < i ==> files[j] != files[i]
  }

  /** The file test `i` ends up holding after the results `files`: its own result when it is the first occurrence, else none. */
  function Attachment(files: seq<Option<Path>>, i: nat): Option<Path>
  {
    if i < |files| && FirstOccurrence(files, i) then files[i] else None
  }

  /** Appending a result leaves earlier first occurrences as they were; the new one is first when its file is new. */
  lemma FirstOccurrenceAppend(files: seq<Option<Path>>, next: Option<Path>)
    ensures forall i :: 0 <= i < |files| ==> FirstOccurrence(files + [next], i) == FirstOccurrence(files, i)
    ensures FirstOccurrence(files + [next], |files|) <==> next.Some? && next !in files
  {
    forall i | 0 <= i < |files|
      ensures FirstOccurrence(files + [next], i) == FirstOccurrence(files, i)
    {
      assert forall j :: 0 <= j <= i ==> (files + [next])[j] == files[j];
    }
    assert forall j :: 0 <= j < |files| ==> (files + [next])[j] == files[j];
    assert (files + [next])[|files|] == next;
  }

  /** Appending a result changes only the attachment of the new test, which takes the file when it is new. */
  lemma AttachmentAppend(files: seq<Option<Path>>, next: Option<Path>)
    ensures forall i: nat :: i != |files| ==> Attachment(files + [next], i) == Attachment(files, i)
    ensures Attachment(files + [next], |files|) == if next.Some? && next !in files then next else None
  {
    FirstOccurrenceAppend(files, next);
    forall i: nat | i < |files|
      ensures Attachment(files + [next], i) == Attachment(files, i)
    {
      assert (files + [next])[i] == files[i];
    }
  }

  /**
   * Every resolved file is attached to exactly one test: the earliest one in list
   * order that resolves to it.
   */
  lemma {:induction false} AttachedOnce(files: seq<Option<Path>>, p: Path)
    requires Some(p) in files
    ensures exists i :: 0 <= i < |files| && files[i] == Some(p) && FirstOccurrence(files, i)
    ensures forall i, j ::
      0 <= i < |files| && 0 <= j < |files| && FirstOccurrence(files, i) && FirstOccurrence(files, j)
      && files[i] == Some(p) && files[j] == Some(p)
      ==> i == j
  {
    if files[0] != Some(p) {
      AttachedOnce(files[1..], p);
      var i :| 0 <= i < |files[1..]| && files[1..][i] == Some(p) && FirstOccurrence(files[1..], i);
      assert files[i + 1] == Some(p);
      assert FirstOccurrence(files, i + 1);
    } else {
      assert FirstOccurrence(files, 0);
    }
  }

  /**
   * The file names after the walk over the list `listFile`: a test before the first
   * exception holds its file when it is the first test to resolve to it; every
   * other test holds none.
   */
  predicate FilesAttached(ws: Workspace, listFile: string)
    reads Loaded(ws, listFile)
  {
    var tests := Loaded(ws, listFile);
    var w := WalkOf(ResolveAll(tests, ws.index, ws.contents));
    forall i :: 0 <= i < |tests| ==> tests[i].filename == Attachment(w.files, i)
  }

  /** No two descriptors carry the same file. */
  predicate DistinctFilenames(tests: seq<TestDescriptor>)
    reads tests
  {
    forall i, j :: 0 <= i < j < |tests| && tests[i].filename.Some? && tests[j].filename.Some? ==>
      tests[i].filename != tests[j].filename
  }

  /**
   * After the walk, no two tests carry the same file, and every file resolved
   * before the first exception is carried by exactly one test.
   */
  lemma AttachedFilesDistinct(ws: Workspace, listFile: string, p: Path)
    requires FilesAttached(ws, listFile)
    ensures DistinctFilenames(Loaded(ws, listFile))
    ensures var tests := Loaded(ws, listFile);
      Some(p) in WalkOf(ResolveAll(tests, ws.index, ws.contents)).files ==>
        exists i :: 0 <= i < |tests| && tests[i].filename == Some(p)
  {
    var tests := Loaded(ws, listFile);
    var w := WalkOf(ResolveAll(tests, ws.index, ws.contents));
    forall i, j | 0 <= i < j < |tests| && tests[i].filename.Some? && tests[j].filename.Some?
      ensures tests[i].filename != tests[j].filename
    {
      assert j < |w.files| && FirstOccurrence(w.files, j);
    }
    if Some(p) in w.files {
      AttachedOnce(w.files, p);
      var i :| 0 <= i < |w.files| && w.files[i] == Some(p) && FirstOccurrence(w.files, i);
      assert tests[i].filename == Some(p);
    }
  }

  /** The outcome `createPhpUnitXml(groups)` arrives at, read off the resolution of the loaded list. */
  function ExpectedOutcome(ws: Workspace, listFile: string, groups: int): CreateOutcome
  {
    if listFile !in ws.testLists then Aborted(TestListMissing(listFile))
    else
      var tests := ws.testLists[listFile];
      match WalkOf(ResolveAll(tests, ws.index, ws.contents)).failure
      case Some(e) => Aborted(Resolve(e))
      case None => Saved(SuitePlan(tests, groups - 1, groups))
  }

  /**
   * A missing list is reported before anything is resolved; otherwise the plan is
   * built exactly when every test resolves, and the exception reported is the one
   * raised by the first test that does not.
   */
  lemma OutcomeOfCreate(ws: Workspace, listFile: string, groups: int)
    ensures listFile !in ws.testLists ==> ExpectedOutcome(ws, listFile, groups) == Aborted(TestListMissing(listFile))
    ensures listFile in ws.testLists ==>
      var tests := ws.testLists[listFile];
      var rs := ResolveAll(tests, ws.index, ws.contents);
      && (ExpectedOutcome(ws, listFile, groups).Saved? <==> forall i :: 0 <= i < |rs| ==> rs[i].Success?)
      && (ExpectedOutcome(ws, listFile, groups).Saved? ==>
            ExpectedOutcome(ws, listFile, groups).plan == SuitePlan(tests, groups - 1, groups))
      && (ExpectedOutcome(ws, listFile, groups).Aborted? ==>
            exists i :: 0 <= i < |rs| && rs[i] == Failure(ExpectedOutcome(ws, listFile, groups).error.error)
              && forall j :: 0 <= j < i ==> rs[j].Success?)
  {
    if listFile in ws.testLists {
      var rs := ResolveAll(ws.testLists[listFile], ws.index, ws.contents);
      var w := WalkOf(rs);
      if w.failure.Some? {
        assert rs[|w.files|] == Failure(w.failure.value);
        assert forall j :: 0 <= j < |w.files| ==> rs[j].Success?;
      }
    }
  }

  /**
   * `createPhpUnitXml(groups)`: scan, load the list (missing: `TestListMissing`),
   * then resolve each test in order, attaching each file to the first test that
   * resolves to it; the first exception stops the walk with the tests before it
   * already updated. Otherwise all tests go to the suite builder with `groups - 1`
   * groups and the special-case group is added with `groups`.
   */
  method CreatePhpUnitXml(ws: Workspace, listFile: string, groups: int) returns (outcome: CreateOutcome)
    requires Distinct(Loaded(ws, listFile)) && Unattached(Loaded(ws, listFile))
    modifies Loaded(ws, listFile)
    ensures outcome == ExpectedOutcome(ws, listFile, groups)
    ensures FilesAttached(ws, listFile)
    ensures DistinctFilenames(Loaded(ws, listFile))
  {
    if listFile !in ws.testLists {
      return Aborted(TestListMissing(listFile));
    }
    var tests := ws.testLists[listFile];
    ghost var rs := ResolveAll(tests, ws.index, ws.contents);
    var seenFiles: map<Path, int> := map[];
    ghost var resolved: seq<Option<Path>> := [];
    for k := 0 to |tests|
      invariant |resolved| == k
      invariant forall i :: 0 <= i < k ==> rs[i] == Success(resolved[i])
      invariant forall f :: f in seenFiles <==> Some(f) in resolved
      invariant forall i :: 0 <= i < |tests| ==> tests[i].filename == Attachment(resolved, i)
    {
      var file := ResolveFileForTest(tests[k], ws.index, ws.contents);
      assert file == rs[k];
      if file.Failure? {
        WalkOfUnique(rs, resolved, Some(file.error));
        AttachedFilesDistinct(ws, listFile, "");
        return Aborted(Resolve(file.error));
      }
      AttachmentAppend(resolved, file.value);
      if file.value.Some? && file.value.value !in seenFiles {
        tests[k].filename := file.value;
        seenFiles := seenFiles[file.value.value := 1];
      }
      resolved := resolved + [file.value];
    }
    WalkOfUnique(rs, resolved, None);
    AttachedFilesDistinct(ws, listFile, "");
    return Saved(SuitePlan(tests, groups - 1, groups));
  }

  /** The exit status `splitTestsList` uses: the launcher's list-tests error constant, or a literal code. */
  datatype ExitStatus = ListTestsErrorStatus | Status(code: int)

  /** How a `splitTests*` entry point ends. */
  datatype SplitOutcome =
    | GroupsCreated(plan: SuitePlan)
    | Raised(error: SplitError)
    | Exited(status: ExitStatus, linearFallback: Option<string>)

  /** `splitTestsList` always asks for eight groups. */
  const SplitGroups: int := 8

  /**
   * `splitTestsList`'s handling of `createPhpUnitXml`: only the error-test-case
   * exception is caught; it runs the linear fallback over `testSuite` exactly when
   * a suite was named, and exits with the list-tests error status either way.
   */
  function HandleCreateOutcome(outcome: CreateOutcome, testSuite: Option<string>): (r: SplitOutcome)
    ensures r.Exited? <==> outcome == Aborted(Resolve(ErrorTestCaseFound))
    ensures r.Exited? ==> r.status == ListTestsErrorStatus
    ensures r.Exited? ==> (r.linearFallback.Some? <==> testSuite.Some?) && r.linearFallback == testSuite
    ensures outcome.Saved? ==> r == GroupsCreated(outcome.plan)
    ensures outcome.Aborted? && outcome != Aborted(Resolve(ErrorTestCaseFound)) ==> r == Raised(outcome.error)
  {
    match outcome
    case Saved(plan) => GroupsCreated(plan)
    case Aborted(Resolve(ErrorTestCaseFound)) => Exited(ListTestsErrorStatus, testSuite)
    case Aborted(e) => Raised(e)
  }

  /** `splitTestsList(testListFile, testSuite)`: eight groups from the named list in the working directory. */
  method SplitTestsList(ws: Workspace, testListFile: string, testSuite: Option<string>) returns (r: SplitOutcome)
    requires Distinct(Loaded(ws, testListFile)) && Unattached(Loaded(ws, testListFile))
    modifies Loaded(ws, testListFile)
    ensures FilesAttached(ws, testListFile) && DistinctFilenames(Loaded(ws, testListFile))
    ensures r == HandleCreateOutcome(ExpectedOutcome(ws, testListFile, SplitGroups), testSuite)
    ensures r.GroupsCreated? ==> r.plan.balancedGroups == 7 && r.plan.specialCaseGroup == 8
  {
    var outcome := CreatePhpUnitXml(ws, testListFile, SplitGroups);
    r := HandleCreateOutcome(outcome, testSuite);
  }

  /** `splitTestsListExtensions`: the extensions list, with the linear fallback over suite `extensions`. */
  method SplitTestsListExtensions(ws: Workspace) returns (r: SplitOutcome)
    requires Distinct(Loaded(ws, "tests-list-extensions.xml")) && Unattached(Loaded(ws, "tests-list-extensions.xml"))
    modifies Loaded(ws, "tests-list-extensions.xml")
    ensures FilesAttached(ws, "tests-list-extensions.xml") && DistinctFilenames(Loaded(ws, "tests-list-extensions.xml"))
    ensures r == HandleCreateOutcome(ExpectedOutcome(ws, "tests-list-extensions.xml", SplitGroups), Some("extensions"))
  {
    r := SplitTestsList(ws, "tests-list-extensions.xml", Some("extensions"));
  }

  /** `splitTestsListDefault`: the default list, with the linear fallback over suite `default`. */
  method SplitTestsListDefault(ws: Workspace) returns (r: SplitOutcome)
    requires Distinct(Loaded(ws, "tests-list-default.xml")) && Unattached(Loaded(ws, "tests-list-default.xml"))
    modifies Loaded(ws, "tests-list-default.xml")
    ensures FilesAttached(ws, "tests-list-default.xml") && DistinctFilenames(Loaded(ws, "tests-list-default.xml"))
    ensures r == HandleCreateOutcome(ExpectedOutcome(ws, "tests-list-default.xml", SplitGroups), Some("default"))
  {
    r := SplitTestsList(ws, "tests-list-default.xml", Some("default"));
  }

  /**
   * `splitTestsCustom`: with fewer than three command-line arguments it exits with
   * status 1 and touches nothing; otherwise it splits the list named by the third
   * argument without a suite name, so the linear fallback never runs.
   */
  method SplitTestsCustom(ws: Workspace, argv: seq<string>) returns (r: SplitOutcome)
    requires |argv| >= 3 ==> Distinct(Loaded(ws, argv[2])) && Unattached(Loaded(ws, argv[2]))
    modifies if |argv| >= 3 then Loaded(ws, argv[2]) else []
    ensures |argv| >= 3 ==> FilesAttached(ws, argv[2]) && DistinctFilenames(Loaded(ws, argv[2]))
    ensures |argv| < 3 ==> r == Exited(Status(1), None)
    ensures |argv| >= 3 ==> r == HandleCreateOutcome(ExpectedOutcome(ws, argv[2], SplitGroups), None)
    ensures r.Exited? ==> r.linearFallback == None
  {
    if |argv| < 3 {
      return Exited(Status(1), None);
    }
    r := SplitTestsList(ws, argv[2], None);
  }
}
