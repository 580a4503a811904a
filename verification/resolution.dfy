/**
 * `PhpUnitXmlManager::resolveFileForTest`: map one declared test class to the single
 * source file that declares it, or classify why that is impossible.
 */
module Resolution {
  import opened Wrappers
  import opened NamespaceScan

  type Path = string

  /** The scan result: source-file base name to every path with that base name, in scan order. */
  type FileIndex = map<string, seq<Path>>

  /** What `file_get_contents` reads at each path; a path outside the map cannot be read. */
  type FileContents = map<Path, string>

  const SourceExtension: string := ".php"

  /**
   * Classes with no file of their own on disk: PHPUnit's generated skip marker, the
   * Scribunto skip marker, and the parser integration suite that is carved out and
   * added back as the special-case group.
   */
  const ExpectedMissingClasses: seq<string> := [
    "PHPUnit\\Framework\\SkippedTestCase",
    "MediaWiki\\Extension\\Scribunto\\Tests\\Engines\\LuaCommon\\LuaEngineTestSkip",
    "\\ParserIntegrationTest"
  ]

  /** PHPUnit's `ErrorTestCase::class`: present in the list when collecting tests itself failed. */
  const ErrorTestCaseClass: string := "PHPUnit\\Framework\\ErrorTestCase"

  /**
   * One declared test class. The loader fixes the three names; `filename` is the
   * only part that `createPhpUnitXml` changes.
   */
  class TestDescriptor {
    const className: string
    const fullClassName: string
    const namespace: seq<string>
    var filename: Option<Path>

    constructor (className: string, fullClassName: string, namespace: seq<string>)
      ensures this.className == className && this.fullClassName == fullClassName
      ensures this.namespace == namespace && filename == None
    {
      this.className := className;
      this.fullClassName := fullClassName;
      this.namespace := namespace;
      filename := None;
    }
  }

  /** The exceptions resolution raises. */
  datatype ResolveError =
    | ErrorTestCaseFound
    | UnlocatedTest(test: TestDescriptor)
    | MissingNamespaceMatch(test: TestDescriptor)
    | FileReadFailed(path: Path)

  /** The base name looked up for a test: its simple class name followed by `.php`. */
  function LookupName(d: TestDescriptor): (name: string)
    ensures |name| == |d.className| + 4
    ensures name[..|d.className|] == d.className && name[|d.className|..] == ".php"
  {
    d.className + SourceExtension
  }

  /** A candidate that was read and declares some other namespace than `ns`. */
  predicate Mismatches(contents: FileContents, path: Path, ns: seq<string>) {
    path in contents && ExtractNamespace(contents[path]) != ns
  }

  /** A candidate that was read and declares exactly the namespace `ns`. */
  predicate Matches(contents: FileContents, path: Path, ns: seq<string>) {
    path in contents && ExtractNamespace(contents[path]) == ns
  }

  /**
   * How many leading candidates were read and declare another namespace than `ns`:
   * the search over several candidates stops at the first one that is either
   * unreadable or declares `ns`.
   */
  function MismatchPrefix(candidates: seq<Path>, contents: FileContents, ns: seq<string>): (k: nat)
    ensures k <= |candidates|
    ensures forall j :: 0 <= j < k ==> Mismatches(contents, candidates[j], ns)
    ensures k < |candidates| ==> !Mismatches(contents, candidates[k], ns)
  {
    if |candidates| == 0 || !Mismatches(contents, candidates[0], ns) then 0
    else 1 + MismatchPrefix(candidates[1..], contents, ns)
  }

  /**
   * The search over several candidates: the first one, in index order, whose
   * declared namespace equals the test's; reading stops at an unreadable file.
   */
  function FirstNamespaceMatch(d: TestDescriptor, candidates: seq<Path>, contents: FileContents): (r: Result<Path, ResolveError>)
    ensures r.Success? ==>
      exists i :: 0 <= i < |candidates| && candidates[i] == r.value && Matches(contents, r.value, d.namespace)
        && (forall j :: 0 <= j < i ==> Mismatches(contents, candidates[j], d.namespace))
    ensures r == Failure(MissingNamespaceMatch(d)) <==>
      forall i :: 0 <= i < |candidates| ==> Mismatches(contents, candidates[i], d.namespace)
    ensures r.Failure? ==> r == Failure(MissingNamespaceMatch(d)) || r.error.FileReadFailed?
    ensures r.Failure? && r.error.FileReadFailed? ==>
      exists i :: 0 <= i < |candidates| && candidates[i] == r.error.path && candidates[i] !in contents
        && (forall j :: 0 <= j < i ==> Mismatches(contents, candidates[j], d.namespace))
  {
    var k := MismatchPrefix(candidates, contents, d.namespace);
    if k == |candidates| then Failure(MissingNamespaceMatch(d))
    else if candidates[k] !in contents then Failure(FileReadFailed(candidates[k]))
    else Success(candidates[k])
  }

  /**
   * `resolveFileForTest`: `Success(Some(path))` for the file of the test,
   * `Success(None)` for an allow-listed class without a file, or the exception.
   */
  function ResolveFileForTest(d: TestDescriptor, index: FileIndex, contents: FileContents): (r: Result<Option<Path>, ResolveError>)
    // no index entry: silent for the allow-list, the sentinel, or unlocated
    ensures LookupName(d) !in index ==>
      (r == Success(None) <==> d.fullClassName in ExpectedMissingClasses)
    ensures LookupName(d) !in index && d.fullClassName !in ExpectedMissingClasses ==>
      r == if d.fullClassName == ErrorTestCaseClass then Failure(ErrorTestCaseFound) else Failure(UnlocatedTest(d))
    // the sentinel is only reported when the lookup failed and the class is not allow-listed
    ensures r == Failure(ErrorTestCaseFound) ==>
      LookupName(d) !in index && d.fullClassName !in ExpectedMissingClasses && d.fullClassName == ErrorTestCaseClass
    // an index entry never yields null
    ensures LookupName(d) in index ==> r != Success(None)
    // a resolved path is always one of the candidates for the test's base name
    ensures r.Success? && r.value.Some? ==> LookupName(d) in index && r.value.value in index[LookupName(d)]
    // one candidate: taken without looking at its namespace
    ensures LookupName(d) in index && |index[LookupName(d)]| == 1 ==> r == Success(Some(index[LookupName(d)][0]))
    // several candidates: the search over them decides
    ensures LookupName(d) in index && |index[LookupName(d)]| != 1 ==>
      match FirstNamespaceMatch(d, index[LookupName(d)], contents)
      case Success(path) => r == Success(Some(path))
      case Failure(e) => r == Failure(e)
  {
    var filename := LookupName(d);
    if filename !in index then
      if d.fullClassName !in ExpectedMissingClasses then
        if d.fullClassName == ErrorTestCaseClass then Failure(ErrorTestCaseFound)
        else Failure(UnlocatedTest(d))
      else Success(None)
    else if |index[filename]| == 1 then Success(Some(index[filename][0]))
    else
      match FirstNamespaceMatch(d, index[filename], contents)
      case Success(path) => Success(Some(path))
      case Failure(e) => Failure(e)
  }

  /** The result of resolving one test: its file, `None` for an allow-listed class, or the exception. */
  type Resolved = Result<Option<Path>, ResolveError>

  /** The result `resolveFileForTest` gives for each test of a list, in list order. */
  function ResolveAll(tests: seq<TestDescriptor>, index: FileIndex, contents: FileContents): seq<Resolved>
  {
    seq(|tests|, i requires 0 <= i < |tests| => ResolveFileForTest(tests[i], index, contents))
  }

  /** How far a walk over a list of tests gets: the results up to the first exception, and that exception. */
  datatype Walk = Walk(files: seq<Option<Path>>, failure: Option<ResolveError>)

  /**
   * Taking results in order until the first exception: `files[i]` is result `i`,
   * and when the walk stopped, the result right after the last file is `failure`.
   */
  function WalkOf(rs: seq<Resolved>): (w: Walk)
    ensures |w.files| <= |rs|
    ensures w.failure.None? ==> |w.files| == |rs|
    ensures forall i :: 0 <= i < |w.files| ==> rs[i] == Success(w.files[i])
    ensures w.failure.Some? ==> |w.files| < |rs| && rs[|w.files|] == Failure(w.failure.value)
  {
    if |rs| == 0 then Walk([], None)
    else
      match rs[0]
      case Failure(e) => Walk([], Some(e))
      case Success(f) =>
        var rest := WalkOf(rs[1..]);
        Walk([f] + rest.files, rest.failure)
  }

  /** Those properties pin the walk down: any prefix of successes ended by the end of the list or by an exception is the walk. */
  lemma {:induction false} WalkOfUnique(rs: seq<Resolved>, files: seq<Option<Path>>, failure: Option<ResolveError>)
    requires |files| <= |rs|
    requires forall i :: 0 <= i < |files| ==> rs[i] == Success(files[i])
    requires failure.None? ==> |files| == |rs|
    requires failure.Some? ==> |files| < |rs| && rs[|files|] == Failure(failure.value)
    ensures WalkOf(rs) == Walk(files, failure)
    decreases |files|
  {
    if files != [] {
      WalkOfUnique(rs[1..], files[1..], failure);
      assert [files[0]] + files[1..] == files;
    }
  }
}
