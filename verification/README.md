# A verified model of the host

The repository is a Rust host that runs JavaScript handlers. Around the JS engine it has a number of
self-contained algorithms with exact promises: who may be anonymous, which request bodies reach a handler,
what a built module imports, which SQL may seed a database, what a plugin future delivers. This project
models those algorithms in Dafny and proves the promises for all inputs, all runs and all reachable states.

`dafny verify dfyconfig.toml` checks everything.

## The modules

| file | what it models |
|---|---|
| `RouteCoverage` | does a tail `/*` in the anonymous list lose routes that its any-depth form covered? |
| `Schema`, `Contract`, `Coercion`, `InputContracts` | request contracts: audit, checker, coercion of query strings, registry |
| `JsonSchema` | what schemas, texts and contracts mean, said apart from the audit, the coercion and the checker |
| `ImportScan`, `ImportGraph`, `ProductText`, `BuildLock` | `oj build`: specifier scanner and rewriting, path arithmetic, the product graph, the version lock |
| `ImportGrammar` | what counts as an import, said on the tokens of a text and apart from the scanner |
| `SqlLexer`, `Comments` | the SQL keyword scanner and the seed gate |
| `SqlGrammar` | the words of a statement and what may seed a database, said apart from the scanner |
| `FfiFuture` | the future a plugin hands to the polling host |
| `Dsn` | masking of credentials in connection strings |
| `Secret`, `SecretTree`, `Base64`, `Utf8` | sealed configuration values and their decryption in a tree |
| `JsInt`, `Decimal`, `CellEnv` | integer markers and cell envelopes of the plugin interface |
| `Mounts` | mount tables from configuration to run time |
| `ModuleScan`, `Platform`, `Reload`, `ReloadInstances` | module roots, discovery and privileged names; cold start and hot reload with its modules, routes and request contracts |
| `Admission` | which attempts a server accepts and which requests it lets through, said apart from the functions that decide it |
| `Json`, `Text`, `Wrappers` | JSON values and numbers, splitting and joining, `Option` and `Result` |

## How the code is modelled

- Code that changes things step by step is a method with the source's loops, or a class with the source's
  fields; each is tied to a function of its inputs or of the old state, and the theorems are about that
  function. Code made of expressions and recursion is a function.
- Everything from outside is a function-valued parameter, so a theorem holds for every behaviour of it:
  the regex engine, parsing of floats and of JSON, the cryptography, the file system, the
  introspection of route declarations and the resolution of source imports.
- Texts are sequences of characters. The scanners of the source run over bytes; all their special
  characters are ASCII, and the bytes of any other character behave as that character does here.
- The entries of a JSON object are an ordered list, looked up by the first match.
- Integers that the source holds in 64 bits carry their bounds explicitly; `AsF64` rounds an integer to
  53 significant bits, ties to even.
- A function that specifies a loop shares its helpers with the loop. So each of the main operations also has a second,
  independent account: a grammar for the two scanners, keyword semantics for schemas, the configuration itself for
  mounts, characters and positions written out for masking, sealing and the seed gate; and a theorem that the two agree
  on every input.
- The FFI protocol, registrations, builds and reloads are state machines; "every run" below means every
  sequence of steps the source allows.

## Where the code and its documentation part

- "A number is preferred to a string" (the comment on `coerce_one`) is not what happens: the first declared
  type that succeeds is taken. `Coercion.NumberIsPreferredIff` gives the condition on the order of the list,
  `Coercion.NumberComesOutIff` the one for every text, and `Coercion.StringFirstKeepsText` an instance.
- A text such as `NaN` that parses as a float without being finite becomes null. So "a coerced value has
  its declared type" is false; `Coercion.CoercedTypeFailsIff` says exactly when.
- `numeric_eq` is exact on integers; as soon as one side is a float literal both are compared as doubles.
  The relation is transitive except from one integer to another by way of a float
  (`Coercion.TransitivityFailsIff`), and membership in an enumeration means what it says, for every list,
  exactly for the integers that are doubles (`Coercion.EnumIsExactIff`). A parameter of type `number` arrives
  as a float: for those it means what it says unless the float is a whole number of the 64-bit range, at least
  2^53 in size, that a neighbouring integer rounds to (`Coercion.FloatEnumIsExactIff`;
  `Coercion.FloatTakenForItsNeighbour` is an instance).
- `sanitize_dsn` and `redact` cut at different places when an authority holds two `@`, or when `@` occurs
  only behind the authority; `Dsn.SanitizeAgreesWithRedact` gives the exact condition.
- `has_sealed` scans compound mapping keys, `decrypt_tree` does not enter them; `SecretTree.ScanAgreesWithWalk`
  gives the exact difference and `SecretTree.HiddenKeyExample` an instance.
- A failed run of `decrypt_tree` does not leave the tree as it was: sequences keep what was decrypted
  before the failure, and a mapping in which it happened is left empty. `SecretTree.LeftBehindAt` describes what
  is left, `SecretTree.FailureKeepsTreeIff` says exactly when that is the old tree, and
  `SecretTree.FailureCanEmptyMapping` is an instance in which it is not.
- "A failed reload changes nothing" holds for modules and routes. The contract table may already have been
  replaced: `Reload.RejectedReloadChangesNothingIff` says exactly when, `Reload.RejectedReloadStripsRouteIff`
  when a live route thereby loses its contract and lets requests through unchecked, and
  `ReloadInstances.RejectedReloadCanStripRoute` is an instance.
- "Live routes are held to the schemas they declare" is false after such an attempt, and also after an accepted
  one with validation switched off, which keeps the old table in force
  (`ReloadInstances.AcceptedReloadCanKeepContracts`). `Reload.InForceAfterRunIff` says exactly when it holds, from
  when a server comes up and through any run.
- "Privileged modules come only from `platform.root`" is checked by directory at cold start and by name
  afterwards. `Reload.PrivilegedDirAfterRunIff` says exactly when the module behind a privileged name still
  lies under the root; `ReloadInstances.PrivilegeCanMove` is an instance in which it does not.
- A build that succeeds keeps every lock entry loadable. A build that fails half-way keeps the entries
  outside its plan loadable, and all entries, wherever it fails, exactly when no module clears a directory
  that the lock still points at (`BuildLock.LoadableWhateverFailsIff`). Building a module again at the version
  it is locked at is already unsafe (`BuildLock.RebuildCanBreakItsOwnEntry`).
- A local import of a `.ts` file under `fixtures` or `node_modules` is rewritten like any other, but has no
  product: `ProductText.EdgeLeadsToProductIff` says which imports lead to one, and
  `ProductText.FixtureImportDangles` is an instance of one that does not.
- An envelope with an empty type name can be encoded but not decoded (`CellEnv.RoundTrip`).
- A replacement specifier that does not fit between the quotes of its import changes what the text imports, and
  nothing checks that; `ImportScan.SafeExactlyWhenItFits` characterises the texts that fit everywhere.

## Model

| member | source | states |
|---|---|---|
| RouteCoverage.WarnsExactlyOnLostPaths | oj/src/app.rs:310-372 | an entry is judged to lose coverage iff it is literal segments plus one tail `/*` and some request path that a route serves is admitted by the any-depth form and not by the one-layer form |
| RouteCoverage.ViewReachesIff | oj/src/app.rs:325-342 | the backtracking recursion over `*`, `**` and literals decides exactly whether a concrete matching path goes two segments beyond a literal head |
| RouteCoverage.ReachesSound | oj/src/app.rs:329-342 | a positive answer comes with a concrete path |
| RouteCoverage.ReachesComplete | oj/src/app.rs:329-342 | no such path is missed, whatever has to be backtracked |
| RouteCoverage.ViewCanProduceAtLeastTwo | oj/src/app.rs:345-354 | the early-exit loop says whether a view has a `**` or two segments |
| RouteCoverage.LiteralThenGlob | serve/src/lib.rs:265-273 | the request matcher accepts `head/**` exactly for the extensions of the head |
| RouteCoverage.AnonViewSegments | oj/src/app.rs:381-394 | turning a router pattern into a view commutes with cutting both into segments |
| RouteCoverage.ViewAdmitsWhatThePatternServes | oj/src/app.rs:379-394 | whatever slashes surround the base, the view of a route admits exactly the paths made by putting one segment for each `{name}` and any number for each `{*name}` of its pattern |
| Schema.AuditKeywords | src/contract.rs:349-430 | the recursive audit accepts exactly the schemas whose keywords are supported and well formed at every depth, and appends exactly their patterns, in order |
| Schema.AuditScalarChannel | src/contract.rs:232-281 | params and query: accepted iff audited, of type object and with scalar properties; properties' patterns are collected twice |
| JsonSchema.AuditedIff | src/contract.rs:349-430 | the audit accepts exactly the schemas whose keywords, types, names and forms are those listed, at every depth |
| JsonSchema.StringChannelIff | src/contract.rs:232-281 | params and query take exactly such schemas of type object with scalar properties and nothing nested |
| Contract.CheckValueIff | src/contract.rs:530-655 | on audited schemas, acceptance iff every sub-schema and sub-value reachable through `properties` and `items` (stopping at nullable nulls) satisfies its own keywords |
| Contract.RejectionIsExplained | src/contract.rs:530-655 | every rejection, also on unaudited schemas, carries the path of a pair that really breaks the keyword it names |
| Contract.AcceptedIsLocallyValid | src/contract.rs:546-655 | acceptance leaves no keyword of the schema itself broken: no early exit skips a check |
| JsonSchema.MeetsIff | src/contract.rs:530-655 | on an audited schema with compiled patterns the checker accepts exactly the values that meet it, keyword by keyword and at every depth, as JSON Schema words the keywords |
| JsonSchema.SameObjectsIff | src/contract.rs:678-683 | objects in enumerations are equal iff they have the same keys with equal values, in whatever order |
| JsonSchema.SameIsIdentical | src/contract.rs:678-683 | values other than top-level numbers, if they hold no objects, are equal only if identical |
| Coercion.CoerceScalars | src/contract.rs:465-492 | the coercion loop returns the object of the key-by-key specification, or the error of the first key that fails |
| Coercion.CoercedKeys | src/contract.rs:465-492 | a coerced object has exactly the keys of its source, in order, each value coerced on its own |
| JsonSchema.CoerceIsReading | src/contract.rs:465-528 | coercion succeeds with an object iff each key's text is a spelling of its value for the first declared type that can read it, or null where none can and null is listed |
| Decimal.ParsesIff | src/contract.rs:500-501 | an integer parameter is a sign or none and then digits, for a number of the 64-bit range |
| Coercion.CoercedTypeFailsIff | src/contract.rs:495-528 | a coerced declared property fails its own type iff the first type that took the text was `number`, the text has no finite value, and null is not allowed |
| Coercion.WrongTypeMeansNonFinite | src/contract.rs:465-528 | end to end on params and query: a rejection for a wrong type points at a text which is no finite number, for a property that takes numbers first and no null |
| Coercion.NaNFailsItsType | src/contract.rs:495-515 | an instance: type `number` and the text `NaN` |
| Coercion.NumberComesOutIff | src/contract.rs:495-515 | for every text and list of types a number comes out iff a type that takes the text as a number stands before every type that takes it otherwise |
| Coercion.NumberIsPreferredIff | src/contract.rs:495-515 | a text that is a finite number and no keyword becomes a number iff a type that takes it as one (`integer` included) stands in the list before any `string` |
| Coercion.StringFirstKeepsText | src/contract.rs:495-515 | an instance: with `string` before `number` the text "12" stays a text, the other way round it becomes 12 |
| Coercion.NumericEqIsExactOnIntegers | src/contract.rs:685-695 | integer comparison is exact on the whole range from -2^63 to 2^64 despite the fallback on doubles, and symmetric |
| Coercion.IntegerEnumIsExact | src/contract.rs:674-695 | a list of integer literals contains an integer iff one of them is that integer |
| Coercion.MixedEnumContains | src/contract.rs:674-695 | in a list of integers and floats mixed, an integer is found iff it is listed itself or its double is |
| Coercion.EnumIsExactIff | src/contract.rs:674-695 | for an integer, membership means "some literal denotes it" in every list iff the integer is a double |
| Coercion.FloatEnumContains | src/contract.rs:674-695 | in any list a float is found iff some literal has it as its double |
| Coercion.FloatEnumIsExactIff | src/contract.rs:674-695 | for a double, membership means "some literal denotes it" in every list unless it is whole, from -2^63 to 2^64, and at least 2^53 in size -- below 2^54 only the multiples of four |
| Coercion.FloatTakenForItsNeighbour | src/contract.rs:674-695 | an instance: 2^53 is found in a list that holds only 2^53 + 1 |
| Coercion.TransitivityFailsIff | src/contract.rs:685-695 | two equalities do not give the third iff the middle is a float and the ends are different integers |
| Coercion.FloatsAreExactFor | src/contract.rs:685-695 | comparison of an integer with every float is exact iff the integer is a double |
| Coercion.FloatLiteralsBlurIntegers | src/contract.rs:685-695 | an instance: two integers beyond 2^53 and the float both round to |
| InputContracts.TryNew | src/contract.rs:173-187 | succeeds iff all three channels are audited; the patterns are those of all channels |
| InputContracts.InputContractRegistry.constructor | src/contract.rs:79-81 | a new registry has no contracts and no patterns |
| InputContracts.InputContractRegistry.Insert | src/contract.rs:84-107 | a bad contract changes nothing; a good one is stored and its patterns compiled unless already there |
| InputContracts.RunKeepsSound | src/contract.rs:84-107 | over any sequence of registrations every stored contract is audited and every pattern in it is compiled, as itself |
| InputContracts.ReachedIsAudited | src/contract.rs:349-430 | every sub-schema the checker can reach is audited, with its patterns in the shared table |
| InputContracts.RequestsNeverFailInternally | src/contract.rs:127-226 | after any sequence of registrations no request to any route meets "not precompiled" or an unreadable type declaration |
| InputContracts.AcceptsIff | src/contract.rs:119-226 | in a sound table a request passes iff params and query, where declared, coerce to objects valid at every depth, and the body, where declared, is a valid value, null if empty; without a contract it passes |
| InputContracts.FirstFailureIsReported | src/contract.rs:127-226 | a body that does not parse is reported before everything else, then the first failing channel in the order params, query, body, with its own error |
| InputContracts.GateIff | src/contract.rs:84-226 | after any registrations, good and bad, that is decided by the last good contract of the route |
| JsonSchema.RequestsAreLetInIff | src/contract.rs:84-226 | the same in terms of meaning alone: the texts can be read as fields that meet the schema, and the body meets its own |
| InputContracts.AuditSchema | src/contract.rs:305-346 | the build-time audit accepts iff the channel names are known, the declared contract can be registered, and `response` is audited |
| ImportGrammar.ScannerReadsTokens | src/bridge/import_scan.rs:10-164 | on every token list the scanner finds exactly the specifiers that the tokens show: a plain literal behind `from`, `import` or `require`, or a whole argument of the latter two |
| ImportGrammar.EveryTextHasTokens | src/bridge/import_scan.rs:14-113 | every text is such a token list, unclosed comments and literals included |
| ImportGrammar.BareImportIsFound | src/bridge/import_scan.rs:135-164 | behind any program text, `from`, `import` or `require`, spacing and a literal give that specifier, and the scan goes on behind it |
| ImportGrammar.CallIsFound | src/bridge/import_scan.rs:135-164 | so does `import(` or `require(` with a literal before `)` or `,`, comments anywhere between |
| ImportGrammar.FromCallIsNoImport | src/bridge/import_scan.rs:135-145 | `from(` gives none |
| ImportGrammar.KeywordAloneIsNoImport | src/bridge/import_scan.rs:145-150 | a word before anything but a literal or a parenthesis gives none |
| ImportGrammar.CallOfOtherIsNoImport | src/bridge/import_scan.rs:145-150 | a call whose argument begins with no literal gives none |
| ImportGrammar.TemplateIsNoImport | src/bridge/import_scan.rs:145-150 | a template gives none, bare or as an argument, and what it holds is not scanned |
| ImportGrammar.ComputedArgumentIsNoImport | src/bridge/import_scan.rs:151-160 | a literal that only begins an argument gives none |
| ImportScan.SpecifierSpans | src/bridge/import_scan.rs:14-48 | the scanner loop yields the spans of all specifiers, past comments, strings and templates |
| ImportScan.SpansHoldSpecs | src/bridge/import_scan.rs:10-48 | the spans are ordered, do not overlap, lie in the text and hold exactly the specifiers |
| ImportScan.RewriteSpecifiers | src/bridge/import_scan.rs:50-68 | returns the text with every specifier mapped, or the error of the first failing specifier in source order |
| ImportScan.ApplyIsRewrite | src/bridge/import_scan.rs:63-67 | splicing the edits from the last to the first gives the text in which each specifier is replaced in place |
| ImportScan.SpecsOfRewrite | src/bridge/import_scan.rs:14-164 | when each replacement can stand between the quotes of its own import, scanning the rewritten text finds exactly the rewritten specifiers: none lost, none new |
| ImportScan.KeptSpecifiersKeepTheText | src/bridge/import_scan.rs:50-68 | where no specifier changes, nothing in the text does |
| ImportScan.SafeExactlyWhenItFits | src/bridge/import_scan.rs:134-164 | a replacement text keeps the scan of every program in step iff its quotes and backslashes do not end a literal early |
| ImportGraph.ProductSpecFor | oj/src/build_cmd.rs:898-924 | the loop and in-place update compute `..` per level left, then the way down, `.js` for `.ts`, `./` when nothing is left |
| ImportGraph.ProductSpecLandsIff | oj/src/build_cmd.rs:895-924 | normalised from the importing directory, the specifier lands on its target iff the target is no prefix of that directory |
| ImportGraph.ProductSpecIsRelative | oj/src/build_cmd.rs:895-924 | a product specifier starts with `./` or `../` and so is never taken for a package |
| ImportGraph.EdgeIsPreserved | oj/src/build_cmd.rs:785-893 | a rewritten specifier leads from the product to the product of the file the original specifier resolved to |
| ImportGraph.ImageIsInjective | oj/src/build_cmd.rs:93-100 | once the collision check has passed, two source files never share a product |
| ImportGraph.GraphIsIsomorphic | oj/src/build_cmd.rs:785-924 | from a file, a specifier means another file in the source iff its rewriting means the product of that file |
| ImportGraph.NormalizeUpDown | src/bridge/module_loader.rs:112-127 | lexical normalisation of `..` steps followed by proper names |
| ImportGraph.ImageIs | oj/src/build_cmd.rs:785-924 | `<module>/<directories>/<stem>.ts` becomes `<module>-<version>/<directories>/<stem>.js` |
| ImportGraph.FixedIff | oj/src/build_cmd.rs:792-893 | package names stay; a specifier with `#`, `./` or `../` is rewritten iff it leads to a `.ts` file of the same module or of one with a known version |
| ProductText.ProductImports | oj/src/build_cmd.rs:792-823 | scanned again, a product text has as many specifiers as its source, each leading to the product of what the source specifier meant, packages untouched, provided each new specifier can stand between the quotes of its import |
| ProductText.FixImportSpecifiers | oj/src/build_cmd.rs:792-823 | returns that product text, or the error of the first local specifier that cannot be built |
| ProductText.NamesWithoutTheQuoteReplace | oj/src/build_cmd.rs:792-823 | a rewritten specifier can stand between the quotes of its import whenever the names on the path of its target hold neither a backslash nor that quote |
| ProductText.EdgeLeadsToProductIff | oj/src/build_cmd.rs:739-762 | a rewritten local specifier leads to an existing product iff its target lies in no skipped directory |
| ProductText.FixtureImportDangles | oj/src/build_cmd.rs:739-762 | an instance for every module and version: an import of a file under `fixtures` is rewritten, and no product stands where it leads |
| BuildLock.CheckCollisions | oj/src/build_cmd.rs:93-100 | the set-based loop accepts iff no two entries share a version directory |
| BuildLock.OutputTree.BuildOne | oj/src/build_cmd.rs:457-652 | clears and refills one version directory, then enters the lock; the state after a fault at any stage |
| BuildLock.OutputTree.Run | oj/src/build_cmd.rs:57-117 | view, collision check, checks, build loop; the resulting tree, lock and outcome |
| BuildLock.RunBuildsIff | oj/src/build_cmd.rs:57-117 | collision, failed checks, check only and building are told apart by shared directory names, the checks and the flag; without building, tree and lock are as before |
| BuildLock.BuiltIff | oj/src/build_cmd.rs:57-117 | a run that builds succeeds iff every module can be built and nothing fails on the way |
| BuildLock.BuiltHoldsThePlan | oj/src/build_cmd.rs:457-652 | after success every planned module stands complete under `<module>-<version>` and in the lock, and every other directory and entry is as it was |
| BuildLock.LoadsIff | oj/src/app.rs:2099-2130 | a lock entry loads iff its names are legal and its directory holds a manifest of that very module and version |
| BuildLock.BuiltMeansLoadable | oj/src/app.rs:2099-2130 | if every lock entry was loadable, then after a successful run of any plan every entry is, and the lock is the old one overridden by the plan |
| BuildLock.UnplannedEntriesSurvive | oj/src/build_cmd.rs:57-117 | however a run ends, entries outside its plan keep their version and stay loadable; without building nothing changes |
| BuildLock.LoadableWhateverFailsIff | oj/src/build_cmd.rs:57-117 | every lock entry stays loadable wherever a run fails iff the plan is refused or no module, up to the first that cannot be built, clears a directory the lock then still points at |
| BuildLock.RebuildCanBreakItsOwnEntry | oj/src/build_cmd.rs:482-487 | an instance for every module and version: rebuilding it at the version it is locked at, and failing after the directory was cleared |
| BuildLock.OtherEntriesStay | oj/src/build_cmd.rs:93-100 | writing one version directory does not touch any other entry of a collision-free view |
| BuildLock.VersionDirIsNotInjective | oj/src/build_cmd.rs:92-93 | two different pairs of module and version share a directory name |
| BuildLock.FailedRunCanBreakPlannedEntry | oj/src/build_cmd.rs:478-487 | when a planned module takes over the old directory of another, a failure in between leaves the other's entry unloadable |
| SqlLexer.CodeTokens | oj/src/checks.rs:508-567 | the index scanner returns the token list of the recursive specification |
| SqlLexer.LexSplits | oj/src/checks.rs:508-567 | at a code boundary a statement can be cut and its halves scanned apart |
| SqlLexer.TriviaIsTransparent | oj/src/checks.rs:504-567 | a comment or quoted literal with any contents, inserted at a code boundary, leaves the tokens unchanged |
| SqlLexer.TokenNormalFormIsStable | oj/src/checks.rs:504-567 | tokens are non-empty words over A-Z, 0-9, `_`, `$`; scanning them joined by blanks gives them back |
| SqlLexer.VerdictsIgnoreTrivia | oj/src/checks.rs:432-502 | lead word, idempotence test and seed verdict, in every dialect, ignore comments, literals and normalisation |
| SqlGrammar.TokensAreWords | oj/src/checks.rs:504-567 | on every list of words, comments, literals and other characters the tokens are the words, in order and in capitals |
| SqlGrammar.EveryTextHasPieces | oj/src/checks.rs:504-567 | every text is such a list, unclosed comments and literals included |
| SqlGrammar.SeedIsAllowedIff | oj/src/checks.rs:451-502 | allowed iff there are no words, or they begin with INSERT, hold no SELECT, and somewhere the words of a form stand side by side that the dialect knows, each form with its dialects |
| SqlGrammar.OneFormInItsDialects | oj/src/checks.rs:451-466 | an insertion with one form only: OR IGNORE everywhere, OR REPLACE in Sqlite, ON CONFLICT in Sqlite and Postgres, INSERT IGNORE and ON DUPLICATE KEY in MySql, and nowhere else |
| SqlGrammar.RefusalNamesTheReason | oj/src/checks.rs:478-502 | the first of the three reasons that applies is reported, with the leading word |
| SqlGrammar.OtherStatementsAreRefused | oj/src/checks.rs:478-489 | UPDATE, DELETE, DROP and their like are refused in every dialect |
| FfiFuture.FfiTask.Spawn | oj-plugin-ffi/src/future.rs:100-114 | a spawned task has a live sender and nothing in channel or slot |
| FfiFuture.FfiTask.ReadyWith | oj-plugin-ffi/src/future.rs:117-146 | a ready task has its result in the slot |
| FfiFuture.FfiTask.Poll | oj-plugin-ffi/src/future.rs:45-65 | code 0, 1 or -1, and the move from channel to slot |
| FfiFuture.PollReports | oj-plugin-ffi/src/future.rs:45-65 | 1 for a value and -1 for a failure, 0 while a result may come, -1 when none will |
| FfiFuture.FfiTask.Take | oj-plugin-ffi/src/future.rs:67-85 | hands out the slot once, else refuses |
| FfiFuture.FfiTask.Free | oj-plugin-ffi/src/future.rs:87-93 | frees the future with whatever it holds |
| FfiFuture.EveryRunConserves | oj-plugin-ffi/src/future.rs:40-146 | over every interleaving a sent result is in exactly one of channel, slot, handed out, dropped, and handed out at most once |
| FfiFuture.CodeIsStable | oj-plugin-ffi/src/future.rs:45-65 | from the first non-zero code on, every poll before a take returns the same code |
| FfiFuture.SentIsSeen | oj-plugin-ffi/src/future.rs:45-65 | once sent, the result is what every poll reports until it is taken |
| FfiFuture.HandedOnlyAfterSeen | oj-plugin-ffi/src/future.rs:67-85 | a spawned task hands out a result only after a poll has seen it |
| FfiFuture.EarlyTakeLosesNothing | oj-plugin-ffi/src/future.rs:67-85 | a run with a take that comes too early ends as the run without it does |
| FfiFuture.AfterTakeAlwaysError | oj-plugin-ffi/src/future.rs:45-85 | after a successful take, in every continuation, polls return -1 and takes are refused |
| FfiFuture.SpawnedDelivers | oj-plugin-ffi/src/future.rs:100-114 | a result sent before the future is freed, after any prior run, is what a poll followed by a take hands out |
| Dsn.SanitizeDsn | oj/src/migrate_cmd.rs:107-144 | the loop over the rest of the text computes the recursive specification |
| Dsn.CredentialsAreMasked | oj/src/migrate_cmd.rs:107-144 | in any text, behind anything without `://`, whatever stands between a scheme and the last `@` before the host is replaced by `***`, and the scan goes on behind the host |
| Dsn.PasswordIsMasked | oj/src/migrate_cmd.rs:107-144 | an instance: `pg://u:p@h/d` |
| Dsn.RedactHides | src/secret.rs:402-414 | the single-value form masks up to the first `@`, keeps a string without one, and hides a text without `://` altogether |
| Dsn.SanitizeIsIdempotent | oj/src/migrate_cmd.rs:107-144 | masking is idempotent on every text, and a second scan meets the same authorities, all masked |
| Dsn.FixedPointsAreMasked | oj/src/migrate_cmd.rs:107-144 | a text is unchanged iff every authority in it is already masked |
| Dsn.HarmlessTextsAreUnchanged | oj/src/migrate_cmd.rs:107-144 | texts without `@` and texts without `://` pass unchanged |
| Dsn.SanitizeAgreesWithRedact | src/secret.rs:402-414 | on a DSN (scheme and authority as in sections 3.1 and 3.2 of RFC 3986) with a clean tail the two forms agree iff the authority has exactly one `@` or there is none at all |
| Dsn.TwoAtsDiffer | src/secret.rs:402-414 | an instance of the disagreement: a password with an `@` |
| Secret.SealEcPub | src/secret.rs:88-111 | the token is recognised as sealed, and whoever holds a private key of that public key opens it to the plaintext |
| Secret.SealThenOpen | src/secret.rs:129-183 | for every key, plaintext and random draws, what was sealed opens, wrapped or bare |
| Secret.OnlyCompleteEnvelopesOpen | src/secret.rs:129-183 | whatever opens is a canonical base64 spelling of a version 2 envelope of at least 62 bytes with the supported algorithm |
| Secret.OpensIff | src/secret.rs:129-183 | a token opens to a text iff it carries, in `ENC[...]` or bare, an envelope of at least 62 bytes of version 2 and algorithm 1 whose parts, at their offsets, decrypt to that text |
| Secret.EnvelopeLayout | src/secret.rs:88-111 | version, algorithm, 32 bytes of public key, 12 of nonce, then the ciphertext |
| Secret.ShortEnvelopesAreRefused | src/secret.rs:159-166 | every envelope below 62 bytes is refused |
| Secret.LawfulIsSatisfiable | src/secret.rs:88-111 | the laws assumed of the cryptography can be met |
| Base64.DecodeEncode | src/secret.rs:129-141 | unpadded base64 (section 5 of RFC 4648, and section 4 for cells) decodes what it encoded |
| Base64.EncodeDecode | src/secret.rs:129-141 | a text that decodes is the encoding of its bytes: trailing bits and lengths are strict |
| Base64.GroupsAreNumbers | src/secret.rs:129-141 | three bytes and their four characters are one 24-bit number (section 4 of RFC 4648); shorter groups have zeros below |
| Utf8.DecodeEncode | src/secret.rs:159-183 | the plaintext bytes give the text back |
| SecretTree.DecryptTree | src/secret.rs:203-240 | succeeds iff no string key is sealed and every sealed value opens; result and count, or the tree left behind and the first error in walk order |
| SecretTree.OpenedAt | src/secret.rs:203-240 | path by path: plaintext where a sealed string stood; shape, keys, their order, tags and other leaves unchanged |
| SecretTree.DecryptableIff | src/secret.rs:203-240 | success iff, at every value position, a sealed text opens and no key of a mapping is sealed |
| SecretTree.FirstFailureIsReported | src/secret.rs:203-240 | the error is that of a node that really fails, and nothing before it in walk order does |
| SecretTree.LeftBehindAt | src/secret.rs:203-240 | a failed run leaves nodes as they were, plaintexts of sealed strings, and emptied mappings; no other change and no new position |
| SecretTree.FailureKeepsTreeIff | src/secret.rs:203-240 | a failed run leaves the tree as it was iff no mapping lies on the way to the failure and every item of a sequence before it opens to itself |
| SecretTree.FailureCanEmptyMapping | src/secret.rs:203-240 | an instance: a mapping with one value, an empty envelope, loses its entry |
| SecretTree.SealedPathsAreExact | src/secret.rs:203-240 | the count is that of the sealed strings at value positions, each once |
| SecretTree.NothingSealedNothingDone | src/secret.rs:187-240 | without a hit of the scan, decryption is the identity and returns 0 |
| SecretTree.ScanAgreesWithWalk | src/secret.rs:187-240 | where decryption succeeds, the scan fires iff the count is positive or a compound key hides a sealed text |
| SecretTree.HiddenKeyExample | src/secret.rs:187-225 | a tree on which the scan fires and nothing is decrypted |
| JsInt.MarkerI64Bijection | oj-plugin-ffi/src/jsint.rs:37-95 | a value decodes to `i` iff `i` fits in i64 and the value is the one-key marker with the decimal print of `i` |
| JsInt.MarkerU64Bijection | oj-plugin-ffi/src/jsint.rs:46-95 | the same for u64 |
| JsInt.CanonicalParses | oj-plugin-ffi/src/jsint.rs:81-95 | a canonical text is the print of its value, and both parsers agree with it within their ranges |
| CellEnv.RoundTrip | oj-plugin-ffi/src/cellenv.rs:29-52 | decoding an encoded cell gives the sanitised type and the base64 of the bytes, iff the type is not empty |
| CellEnv.DecodeIff | oj-plugin-ffi/src/cellenv.rs:45-52 | recognised iff `$`, a lower-case type name, a colon, any payload |
| CellEnv.PayloadRoundTrip | oj-plugin-ffi/src/cellenv.rs:29-41 | the padded payload (section 4 of RFC 4648) gives the bytes back |
| CellEnv.SanitisedIs | oj-plugin-ffi/src/cellenv.rs:29-41 | character by character: capitals become small, small letters, digits and underscores stay, the rest becomes an underscore |
| CellEnv.DegradedOf | oj-plugin-ffi/src/cellenv.rs:56-71 | the nested loops list the hits of all rows without repetition |
| CellEnv.FirstSeenOnceInOrder | oj-plugin-ffi/src/cellenv.rs:56-71 | that list has each hit exactly once, in the order of first appearance |
| Mounts.ValidateMounts | src/config.rs:797-891 | accepts iff each mount is well formed, no prefix is declared twice per kind, and no SPA shares a prefix with an API |
| Mounts.AcceptedMountIsSound | src/config.rs:797-891 | a mount passes on its own iff prefix and directory are not blank, it is API or web, remote archives are http(s) with a hash, local ones without hash and cache, and only web mounts are SPAs |
| Mounts.ResolvesIff | oj/src/app.rs:958-1030 | a mount resolves iff its prefix begins with a slash and the one directory it names is there |
| Mounts.NormIsServed | oj/src/serve_cmd.rs:1433-1443 | the prefix served is the declared one without trailing slashes, `/` if nothing else is left |
| Mounts.ResolveMounts | oj/src/app.rs:958-1030 | one resolved mount per declared one, in order, or an error iff a mount is a duplicate or cannot be resolved |
| Mounts.BuildRuntimeMounts | oj/src/app.rs:748-797 | the two pairing passes compute API entries with absorbed web mounts, then stand-alone web entries |
| Mounts.MountsAreConserved | oj/src/app.rs:748-797 | after validation, every API mount is served once, in order and with its own routes, and every web mount once with root, headers and SPA flag as resolved, alone or absorbed by the API of the same prefix; the stand-alone ones keep their order |
| Mounts.ConfigurationIsServed | oj/src/app.rs:748-1030 | told from the configuration: what is served are the web mounts declared, each once with its directory, headers and flag, and the API mounts declared, in order, with a fallback for source trees only |
| Mounts.EachApiServesItsTable | oj/src/app.rs:748-781 | when one route table was built per API mount, in order, the k-th API is served with the k-th table |
| Mounts.ApiPartAbsorbs | oj/src/app.rs:756-779 | the API entries carry exactly the web mounts under their prefixes |
| Platform.BuildSchemaAndModules | oj/src/app.rs:403-472 | the loops over trees, modules and tables assemble a generation iff discovery succeeds, names are unique across trees and no table has two owners |
| Platform.AssembledIff | oj/src/app.rs:403-472 | the trees make a generation iff each can be searched, names are unique, schemas are sound and no table is declared twice; modules are those found and owners those who declare |
| Platform.DiscoveredInTree | oj/src/manifest.rs:126-165 | in all three layouts a discovered module lies inside the tree in which it was found |
| Platform.DiscoverIff | oj/src/manifest.rs:126-165 | modules are the first-level directories of sources, or the version directories of a lock, which must all exist; a tree under the index has the modules of the index |
| Platform.GrantsAreControlled | oj/src/app.rs:497-606 | at cold start each privileged name has exactly one module in all trees, and its directory lies under `platform.root` |
| Platform.GrantsIff | oj/src/app.rs:497-606 | grants are given iff nothing is asked for, or the root is mounted, apart from all other trees, and holds every privileged name |
| Platform.LiesUnderIff | oj/src/app.rs:403-472 | a module of a generation lies under a directory iff a mounted tree yields its name there |
| Platform.LiesUnderMountedIff | oj/src/app.rs:528-546 | without a tree above the root, the rule of cold start, iff a tree at or below the root yields the name |
| ModuleScan.RootsAreBelow | src/bridge/module_scan.rs:297-346 | every module root lies below the scanned directory |
| ModuleScan.HitsAreTheRoots | src/bridge/module_scan.rs:297-346 | a directory is a root iff it holds a manifest, at most eight levels down, on a way through no other manifest, build output, link, hidden or skipped directory |
| ModuleScan.IndexIsMadeIff | src/bridge/module_scan.rs:229-295 | the index is made iff there are between 1 and 1024 roots, every manifest is sound, and names and prefixes are unique; it lists every root |
| ModuleScan.OwnerIsUnique | src/bridge/module_scan.rs:138-179 | module roots do not nest, so no file belongs to two modules and the longest-prefix search never has a choice |
| Reload.LoadRelease | oj/src/app.rs:2081-2150 | the loop over a lock checks every entry and collects the rows of its `routes.js`, or fails |
| Reload.RegisterRows | oj/src/app.rs:2194-2228 | registering the declared schemas of audited rows never fails and gives the contract table of the routes |
| Reload.TableHoldsDeclarations | oj/src/app.rs:2194-2228 | the table holds for each handler the last schema declared for it, and nothing else |
| Reload.Backend.Squatter | oj/src/app.rs:613-628 | the check walks the next generation and reports a privileged name the live one does not have |
| Reload.Backend.Reload | oj/src/app.rs:1938-2228 | shadow assembly, squatting check, routes and their audit, contract table, swap; the whole live state after every kind of attempt |
| Admission.AcceptedIff | oj/src/app.rs:1938-2228 | an attempt is accepted iff its trees make a generation without a new privileged name, every mount has its routes, every schema can be enforced, and the gates and last steps succeed; the routes are those of its mounts, in order |
| Admission.ComesUpIff | oj/src/app.rs:1892-2228 | the same for a cold start, where the grants are checked and no lock may be empty |
| Reload.PrivilegesNeverGrow | oj/src/app.rs:1942-1962 | over every run of reload attempts the set of live privileged names never grows |
| Reload.PrivilegedDirAfterRunIff | oj/src/app.rs:608-628 | after any run a live privileged name was controlled at cold start, and its module lies under the root iff nothing was accepted since or the last accepted attempt mounts a tree that yields the name there |
| ReloadInstances.PrivilegeCanMove | oj/src/app.rs:613-628 | an instance: after one accepted attempt the privileged name belongs to a module in another tree |
| Reload.GenerationOfRun | oj/src/serve_cmd.rs:520-615 | after any run, modules and routes are those of the last accepted attempt |
| Reload.ContractsOfRun | oj/src/app.rs:2194-2228 | after any run, the contract of a handler is what the routes installed last declare, accepted or not |
| Reload.RejectedReloadChangesNothingIff | oj/src/app.rs:1938-1941 | a rejected attempt keeps modules and routes; it keeps all contracts iff it stops before installing, or its routes declare what was in force |
| Reload.RejectedReloadStripsRouteIff | oj/src/app.rs:2225-2228 | a rejected attempt strips a live route of its contract, so that every request passes unchecked, iff it installs a table from routes that give the handler no schema |
| ReloadInstances.RejectedReloadCanStripRoute | oj/src/app.rs:2225-2228 | an instance: a request that was refused before passes after a rejected attempt |
| ReloadInstances.AcceptedReloadCanKeepContracts | oj/src/app.rs:2194-2228 | an instance: an accepted attempt without validation, after which a request is refused for a schema that no live route declares |
| Reload.InForceAfterRunIff | oj/src/app.rs:2194-2228 | from cold start through any run, the live routes are held to their own schemas iff the routes whose schemas were installed last (at cold start, or none without validation) and those accepted last declare the same |
| Reload.AcceptedReloadHeals | oj/src/app.rs:2194-2228 | an accepted attempt with validation restores that, whatever came before |
| Reload.LiveRequestsNeverFailInternally | src/contract.rs:127-226 | from cold start through any run of accepted and rejected attempts no request meets an internal error of the validator |
| Admission.LiveGateIff | src/contract.rs:119-226 | from cold start through any run, for every handler and request: it is let through iff it meets the last schema that the enforced routes give for the handler, if any |

## Left out

- Regex matching, JSON and float parsing, X25519, HKDF and AES-GCM: parameters; only the laws in `Secret.Lawful` are assumed, of the cryptography.
- File system, introspection of route declarations and resolution of source imports: parameters of `Mounts`, `Platform`, `Reload` and `ImportGraph`; their errors appear as failing values, and races with other processes do not appear.
- Texts of error messages, and the JSON path as a string: errors are constructors, paths are lists of steps.
- ProductText.ProductImports: assumes that each new specifier can stand between the quotes of its import (`NamesWithoutTheQuoteReplace` says when it can; without that the graph may change, see above), and that no file is also a directory on the way to the importing file, because the file system guarantees that.
- ImportGraph.EdgeIsPreserved: speaks of the first candidate of the run-time probe (the path taken literally), not of the later ones with suffixes, which a product specifier never needs.
- BuildLock.OutputTree.Run: takes the plan in any order, of which the sorted one of the source is one; files of a version directory are one value, and mirrored task files, `routes.js`, transpiling, minifying, the archive and the final self-check of the products are left out.
- Reload.Backend.Reload: the configuration and migration gates before the routes, and the steps after the contracts (certificate, listener options, web sockets, task pool), are one flag each that says whether they succeed; the idempotence test on an unchanged configuration, which skips the attempt, is left out.
- ModuleScan.RootsAreBelow: symbolic links are skipped as in the source, so paths are compared as written; the order in which directories are visited is left out.
- Mounts.MountsAreConserved: fetching of remote API archives is part of the file-system parameter; headers and route tables are carried as opaque values.
- FfiFuture.FfiTask.Free: a null handle and the run-time type check of raw pointers are not modelled; the host does not use a handle it has freed.
- `legacy_entries`: skips entries the configuration confirmed as one-layer before it asks; only the question is modelled.
- `reject_u64_markers`, `catch_future`, `rel_pattern`, `guard_no_api_imports`, `js_strings`: settled by one branch or by a plain scan.
- Matching of routes by the HTTP router: only the view the host derives from a pattern is modelled, and request paths are matched by the host's own matcher.
- Command line, logging, OpenAPI generation, plugin loading, web sockets, database and per-section configuration checks.
