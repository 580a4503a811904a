# PHPUnit test-list splitting, search field definitions and message-poster registry

This project models three pieces of the MediaWiki code base in Dafny and proves
properties of the models.

1. **Test-list splitting** (`PhpUnitXmlManager`). The manager distributes PHPUnit
   test classes over parallel suites. Each declared test class is resolved to one
   source file. The lookup is by base name (`ClassName.php`) in a scan index, and
   several candidates are told apart by the first `namespace` line of each file.
   Each file is attached to the first test that resolves to it. The tests then go
   to the suite builder with `groups - 1` balanced groups, plus one special-case
   group. When PHPUnit's own collection failed (the `ErrorTestCase` sentinel),
   `splitTestsList` runs the linear fallback only if a suite name was given, and
   exits with the list-tests error status either way.
2. **Search index field definitions** (`SearchIndexFieldDefinition`). A field has a
   name, an index type, 64-bit integer flags, subfields and an optional merge
   callback. `setFlag` and `checkFlag` work on the flags. `merge` applies the
   default compatibility rule (same type, same flags, not nested) unless a
   callback is set.
3. **Message-poster factory** (`mw.messagePoster.factory`). It keeps a table from
   content model to MessagePoster class. `register` refuses a model that is
   already registered, and `unregister` deletes an entry. `create` classifies the
   page-info reply into a rejection or the class to construct.

Files:
- `wrappers.dfy`: `Option` and `Result`.
- `namespace.dfy`: `extractNamespaceFromFile`.
- `resolution.dfy`: `resolveFileForTest`.
- `splitter.dfy`: `createPhpUnitXml` and the `splitTests*` entry points.
- `field_definition.dfy`: the field definition class.
- `message_poster.dfy`: the factory.

Modelling choices:
- The file system is a `Workspace` value. It holds the scan index (base name to
  candidate paths, in scan order), the declared-test lists by file name, and the
  file contents as a map from path to text.
- A candidate path that cannot be read is reported as `FileReadFailed`. The file
  declares `strict_types`, so `preg_match` on the `false` that `file_get_contents`
  returns raises an error that aborts the run.
- The namespace pattern `^namespace\s+([^\s;]+)` with the `m` modifier is modelled
  character by character. `^` holds at the start of the text and after every `\n`.
  `\s` is space, tab, `\n`, vertical tab, form feed and `\r`.
  `MatchesAtIsPattern` proves that this greedy reading agrees with the pattern.
- `in_array` compares loosely. All three allow-listed names are non-numeric
  strings, so the comparison is plain membership.
- PHP integers are 64-bit two's complement, so the flags are `bv64`.
- Exceptions and `exit()` become returned outcome values.
- The linear fallback appears in the outcome as the name of the suite it runs over.
- When resolution stops at an exception, the tests before it have already been
  given their file names. The model keeps that in-place effect.
- The exception for a namespace miss carries only the test. The code collects the
  candidate namespaces in `$possibleNamespaces` but never attaches them, and the
  model follows the code.
- The code scans the source tree before it loads the test list. In the model the
  scan result is an input, so this order has no visible effect.

## Model

| member | source | states |
|---|---|---|
| `NamespaceScan.SpaceRun` | includes/composer/PhpUnitSplitter/PhpUnitXmlManager.php:75 | the `\s+` part of the pattern: the longest run of whitespace at a position, ended by a non-space or the end of the text |
| `NamespaceScan.NameRun` | includes/composer/PhpUnitSplitter/PhpUnitXmlManager.php:75 | the `[^\s;]+` part: the longest run of characters that are neither whitespace nor `;` |
| `NamespaceScan.MatchesAtIsPattern` | includes/composer/PhpUnitSplitter/PhpUnitXmlManager.php:75 | the greedy match test holds at a position exactly when the literal pattern `^namespace\s+([^\s;]+)` can match there; every way of matching uses the whole run of spaces and at most the whole name run, so the greedy capture is the longest one |
| `NamespaceScan.FirstMatch` | includes/composer/PhpUnitSplitter/PhpUnitXmlManager.php:75 | the position `preg_match` reports is at or after the start of the search and the pattern matches there |
| `NamespaceScan.FirstMatchIsLeftmost` | includes/composer/PhpUnitSplitter/PhpUnitXmlManager.php:75 | that position is the leftmost: no earlier position matches, and `None` means no position matches at all |
| `NamespaceScan.Capture` | includes/composer/PhpUnitSplitter/PhpUnitXmlManager.php:75-76 | the captured name is non-empty and holds no whitespace and no `;` |
| `NamespaceScan.CaptureIsGroupOne` | includes/composer/PhpUnitSplitter/PhpUnitXmlManager.php:75-76 | `$matches[1]` is the text that starts right after the whole `\s` run following `namespace`; the pattern matches with that run and that capture, and no way of matching at that position allows a longer name |
| `NamespaceScan.Explode` | includes/composer/PhpUnitSplitter/PhpUnitXmlManager.php:76 | `explode('\\', name)` gives at least one piece, no piece holds a backslash, and joining the pieces with backslashes gives back the name |
| `NamespaceScan.ExplodeImplode` | includes/composer/PhpUnitSplitter/PhpUnitXmlManager.php:76 | the other direction of the round trip: exploding the join of separator-free pieces gives back those pieces |
| `NamespaceScan.ExtractNamespaceSpec` | includes/composer/PhpUnitSplitter/PhpUnitXmlManager.php:72-79 | the result is empty exactly when no line matches; otherwise its segments hold no backslash and, joined with backslashes, give the name captured at the first match |
| `Resolution.LookupName` | includes/composer/PhpUnitSplitter/PhpUnitXmlManager.php:90 | the base name looked up is the simple class name followed by `.php` |
| `Resolution.MismatchPrefix` | includes/composer/PhpUnitSplitter/PhpUnitXmlManager.php:105-111 | the search reads the candidates in index order and passes over exactly those that were read and declare another namespace; it stops at the first unreadable or matching one |
| `Resolution.FirstNamespaceMatch` | includes/composer/PhpUnitSplitter/PhpUnitXmlManager.php:104-112 | with several candidates, the result is the first candidate in index order whose namespace equals the test's, so it is always one of the candidates; `MissingNamespaceMatch` is raised exactly when every candidate declares another namespace |
| `Resolution.ResolveFileForTest` | includes/composer/PhpUnitSplitter/PhpUnitXmlManager.php:89-113 | with no index entry: `null` exactly for allow-listed classes; otherwise `ErrorTestCaseFound` for the sentinel and `UnlocatedTest` for any other name; the sentinel is never reported for allow-listed or present names; an index entry never gives `null`; a single candidate is returned without a namespace check; a resolved path is always a candidate for the name; several candidates are decided by the namespace search |
| `Resolution.WalkOf` | includes/composer/PhpUnitSplitter/PhpUnitXmlManager.php:136-137 | resolution in list order stops at the first exception: the files before it are the results of the tests before it, and the exception is that of the next test |
| `Resolution.WalkOfUnique` | includes/composer/PhpUnitSplitter/PhpUnitXmlManager.php:136-137 | any run of successes that is ended by the end of the list or by an exception is exactly that walk |
| `Splitter.FirstOccurrenceAppend` | includes/composer/PhpUnitSplitter/PhpUnitXmlManager.php:138-141 | a test takes its file exactly when the file is not yet in `$seenFiles`; earlier decisions do not change as the walk goes on |
| `Splitter.AttachedOnce` | includes/composer/PhpUnitSplitter/PhpUnitXmlManager.php:135-142 | every file in the walk's results has exactly one first-occurrence index, the earliest test in list order that resolves to it |
| `Splitter.OutcomeOfCreate` | includes/composer/PhpUnitSplitter/PhpUnitXmlManager.php:61-146 | a missing list aborts with `TestListMissing` before anything is resolved; suites are built only when every test resolves, from all loaded tests with `groups - 1` balanced groups and the special-case group `groups`; otherwise the run aborts with the exception of the first test that fails to resolve, and no suites are built |
| `Splitter.AttachedFilesDistinct` | includes/composer/PhpUnitSplitter/PhpUnitXmlManager.php:135-142 | after the walk no two tests hold the same file, and every file resolved before the first exception is held by some test |
| `Splitter.CreatePhpUnitXml` | includes/composer/PhpUnitSplitter/PhpUnitXmlManager.php:131-147 | the outcome is the one `OutcomeOfCreate` describes; the loop with `$seenFiles` leaves each test before the first exception holding its file exactly when it is the first test to resolve to that file, and every other test holding none; afterwards no two tests hold the same file |
| `Splitter.HandleCreateOutcome` | includes/composer/PhpUnitSplitter/PhpUnitXmlManager.php:167-185 | only the error-test-case exception is caught; it leads to an exit with the list-tests error status, and the linear fallback runs exactly when a suite name was given; other exceptions propagate and a saved plan completes |
| `Splitter.SplitTestsList` | includes/composer/PhpUnitSplitter/PhpUnitXmlManager.php:161-185 | the outcome of eight groups (7 balanced ones and the special-case group 8), as `HandleCreateOutcome` treats it; the tests' file names are left as `createPhpUnitXml` attaches them, with no file held twice |
| `Splitter.SplitTestsListExtensions` | includes/composer/PhpUnitSplitter/PhpUnitXmlManager.php:193-195 | splits `tests-list-extensions.xml` with fallback suite `extensions`; the file names are attached as `createPhpUnitXml` attaches them, with no file held twice |
| `Splitter.SplitTestsListDefault` | includes/composer/PhpUnitSplitter/PhpUnitXmlManager.php:203-205 | splits `tests-list-default.xml` with fallback suite `default`; the file names are attached as `createPhpUnitXml` attaches them, with no file held twice |
| `Splitter.SplitTestsCustom` | includes/composer/PhpUnitSplitter/PhpUnitXmlManager.php:213-220 | with fewer than 3 arguments it exits with status 1 and changes nothing; otherwise it splits the list named by the third argument without a suite name, so the linear fallback never runs, and the file names are attached as `createPhpUnitXml` attaches them |
| `SearchFields.FieldDefinition.constructor` | includes/search/SearchIndexFieldDefinition.php:33-53 | a new field stores the given name and type, has flags 0, no subfields and no merge callback |
| `SearchFields.FieldDefinition.GetName` | includes/search/SearchIndexFieldDefinition.php:59-61 | returns the stored name |
| `SearchFields.FieldDefinition.GetIndexType` | includes/search/SearchIndexFieldDefinition.php:66-68 | returns the stored type |
| `SearchFields.FlagBitsAfterSet` | includes/search/SearchIndexFieldDefinition.php:78-85 | after `setFlag(f)` every bit of `f` is set; after `setFlag(f, true)` every bit of `f` is clear |
| `SearchFields.OtherBitsAfterSet` | includes/search/SearchIndexFieldDefinition.php:78-85 | `setFlag` leaves every bit outside `f` unchanged |
| `SearchFields.SetFlagIdempotent` | includes/search/SearchIndexFieldDefinition.php:78-85 | the same `setFlag` call twice equals one call |
| `SearchFields.FieldDefinition.SetFlag` | includes/search/SearchIndexFieldDefinition.php:78-85 | the flags become `flags \| f`, or `flags & ~f` with `unset`; afterwards `checkFlag(f)` is `f`, or 0 with `unset`; nothing else changes and the field itself is returned |
| `SearchFields.FieldDefinition.CheckFlag` | includes/search/SearchIndexFieldDefinition.php:94-96 | a read that changes nothing; its result has no bit outside its argument |
| `SearchFields.FieldDefinition.Merge` | includes/search/SearchIndexFieldDefinition.php:105-116 | with a callback set, the callback's result, and the default rule is not consulted; without one, `that` exactly when it is a definition with equal type and equal flags and the type is not nested, and `false` otherwise |
| `SearchFields.DefaultMergeSymmetric` | includes/search/SearchIndexFieldDefinition.php:110-114 | without callbacks, two definitions merge one way exactly when they merge the other way, and a definition merges with itself exactly when it is not nested |
| `SearchFields.DefaultMergeRefusesOtherFields` | includes/search/SearchIndexFieldDefinition.php:110-115 | without a callback, a field that is not a definition is never merged |
| `SearchFields.FieldDefinition.GetSubfields` | includes/search/SearchIndexFieldDefinition.php:121-123 | returns the stored subfields |
| `SearchFields.FieldDefinition.SetSubfields` | includes/search/SearchIndexFieldDefinition.php:129-132 | `getSubfields()` then returns exactly the given list; name, type, flags and callback are unchanged |
| `SearchFields.FieldDefinition.SetMergeCallback` | includes/search/SearchIndexFieldDefinition.php:145-147 | from then on `merge` returns the callback's result for every argument |
| `MessagePosters.MessagePosterFactory.constructor` | resources/src/mediawiki.messagePoster/factory.js:12-14 | a new factory has an empty table |
| `MessagePosters.AfterRegister` | resources/src/mediawiki.messagePoster/factory.js:49-55 | registering succeeds exactly when the model is free; it then maps the model to the constructor and keeps every other entry; otherwise it gives the `already registered` message |
| `MessagePosters.AfterUnregister` | resources/src/mediawiki.messagePoster/factory.js:64-66 | unregistering removes the model and keeps every other entry |
| `MessagePosters.UnregisterFreesModel` | resources/src/mediawiki.messagePoster/factory.js:49-66 | after `unregister(m)`, `register(m, c)` succeeds |
| `MessagePosters.UnregisterUndoesRegister` | resources/src/mediawiki.messagePoster/factory.js:49-66 | unregistering a freshly registered model restores the table, and unregistering an absent model is a no-op |
| `MessagePosters.MessagePosterFactory.Register` | resources/src/mediawiki.messagePoster/factory.js:49-55 | throws exactly when the model is already registered, and then leaves the table unchanged; otherwise the table becomes the one `AfterRegister` gives |
| `MessagePosters.MessagePosterFactory.Unregister` | resources/src/mediawiki.messagePoster/factory.js:64-66 | the table becomes the one `AfterUnregister` gives |
| `MessagePosters.Classify` | resources/src/mediawiki.messagePoster/factory.js:96-106 | a failed request gives `content-model-query-failed`; no page gives `unexpected-response`; a content model without a handler gives `content-model-unknown`; a class is constructed exactly when the first page's model is registered, and it is that model's class |
| `MessagePosters.RegisteredModelIsConstructed` | resources/src/mediawiki.messagePoster/factory.js:49-105 | once a model is registered, a reply whose first page has that model constructs the registered class for the title |

## Left out

- The real file system is not modelled: `file_exists`, `file_get_contents`, `getcwd` and `DIRECTORY_SEPARATOR` paths. The workspace value stands in for them.
- `PhpUnitTestFileScanner` and `PhpUnitTestListProcessor` are not part of this model. Their results, the scan index and the loaded tests, are inputs.
- `PhpUnitXml` is not part of this model: loading `phpunit.xml.dist`, `addSplitGroups`, `addSpecialCaseTests`, `saveToDisk` and `isPhpUnitXmlPrepared`. The model returns what would be passed to them. Errors these steps raise, including `SuiteGenerationException`, are not modelled.
- `TestSuiteBuilder::buildSuites` is not part of this model. Its balancing rule is not stated; the plan records only that it receives every loaded test and `groups - 1`.
- `TestDescriptor` is not part of this model. Its class name, full class name and namespace are taken as the loader gives them, and `setFilename` is an assignment to `filename`.
- Splitter.CreatePhpUnitXml: requires the loaded tests to be distinct objects that hold no file name yet, as freshly loaded descriptors are. A list that holds the same object twice, or descriptors reused from an earlier run, is not modelled.
- `SplitGroupExecutor::runLinearFallback` and Shellbox process execution are not part of this model. The outcome names the suite the fallback would run over.
- Composer `Event` I/O (`write`, `error`, `info`, `listTestsNotice`) and `exit()` are left out as output. The exit becomes an `Exited` outcome.
- `ComposerLaunchParallel` is not part of this model, so the value of `EXIT_STATUS_PHPUNIT_LIST_TESTS_ERROR` stays symbolic (`ListTestsErrorStatus`).
- The `SearchIndexField` interface is not part of this model. `INDEX_TYPE_NESTED` is taken to be `"nested"`; the proofs only use that it is one fixed type.
- `getMapping` and `getEngineHints` are abstract or engine-specific and are left out.
- SearchFields.FieldDefinition.Merge: a merge callback is a callable known by identity. What calling it returns is a parameter, a pure function of the callable and the two field references. A PHP callback that reads or changes the fields' state is not captured.
- MessagePosters.MessagePosterFactory.Register: JavaScript truthiness is not modelled. An entry registered with a falsy value would count as free for `register` and unknown for `create`; the model treats every registered constructor as present.
- The `mw.Api` and `mw.ForeignApi` request, jQuery promises and the construction of the poster object are left out. The reply is an input, and the result names the class and title to construct.
- A reply without a `query` or `pages` member makes the JavaScript callback throw. This is not modelled; a reply is either a failure or a page list.
