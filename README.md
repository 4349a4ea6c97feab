# validate-kb-statements: the statement validator

`index.js` checks a directory of vulnerability statements. Each statement
names the fixes of a vulnerability: a branch id and a list of commits, each
commit given by its id and the raw URL of its repository. It also lists the
package URLs (PURLs) of affected artifacts. For each statement the program:

- resolves every raw repository URL to a hosting path;
- asks the GitHub API whether the repository, the branch and the commit
  exist, and whether some branch contains the commit;
- parses each artifact id as a package URL;
- collects the failures into one report row per failing statement.

Failures go into key sets (JavaScript objects used as sets): the error log,
the failing repository URLs and the failing branch ids. Failing commit ids
and failing artifact ids are appended to plain strings. A map from raw
repository URL to the http code of its first failure, `repositoryError`,
lives for the whole run.

The project models that engine:

- `Text` (text.dfy): `String.prototype.replace` with a string pattern and
  a replacement holding no `$` (the only replacement used is `""`), which
  replaces the first occurrence wherever it is; `endsWith`; the decimal
  text of an http code.
- `Resolver` (resolver.dfy): the URL resolver of lines 56-64.
- `KeySets` (keysets.dfy): an object used as a set. Its keys are kept in
  first-insertion order, and a report cell lists every key followed by ','.
- `Engine` (engine.dfy): the data, the oracles and a step-by-step functional
  specification. `CheckRef` covers one commit reference, `WalkRefs` the fix
  and commit loops, `Validate` one statement and `RunStatements` a run.
- `Run` (run.dfy): the class `Run`. Its fields are the run-wide
  `repositoryError` map, the report rows, and the working state of the
  statement being validated: the three key sets, the two commit cells and
  the `isError` flag (lines 37-46). Its methods are the loops and checks of
  index.js, each proved equal to the specification.
- `EngineFacts` (engine_facts.dfy) and `StatementFacts`
  (statement_facts.dfy): what the validator guarantees.

The four API calls are the fields of a `Verifier` value, and the PURL parser
is a predicate `purlOk`. During one statement a `Verifier` gives the same
answer to the same question. Over a run each statement has its own
`Verifier`, because the service can answer differently later. The ghost
list of `Query` values records the API calls in the order made, so the
lemmas can say which checks are asked.

One might expect the validator to behave in ways the code does not. The
model follows the code, and a lemma states each of these behaviours:

- A failing repository that is referenced again is checked again. The
  repository check is asked for every commit reference, cached or not
  (`EngineFacts.EveryReferenceAsksRepository`).
- The repository-failure map is not reset per statement. It is declared
  once for the whole run (line 29), and the first http code recorded is
  kept. A later statement that references a URL that failed earlier
  reports it as a repository error, even when the API now accepts it
  (`StatementFacts.StickyRepositoryFailure`).
- Failing commits are not deduplicated. Line 80 appends `id + ","` on
  every failure (`EngineFacts.CommitErrorsRepeat`).
- Not only a `.git` suffix is removed. Line 58 removes the first `.git`
  anywhere in the string, so `https://github.com/org/my.github.io.git`
  resolves to `/org/myhub.io.git` (`Resolver.NormalizePagesRepository`).
- Failing artifact ids are concatenated without a separator, so different
  lists can give the same cell (`StatementFacts.PurlErrorsAmbiguous`).

## Model

| member | source | states |
|---|---|---|
| Text.FindFirst | index.js:58 | the result is the least index at which the pattern occurs, or none when it occurs nowhere |
| Text.ReplaceFirst | index.js:58-60 | `replace` with a string pattern: the first occurrence, wherever it is, is replaced; a string without one is unchanged |
| Text.FirstOccurrenceAfter | index.js:58 | in `a + pat + b`, with no `pat` in `a` and no self-overlap of `pat`, the first occurrence is the one right after `a` |
| Text.ReplaceFirstAfter | index.js:58 | under the same conditions, `replace` turns `a + pat + b` into `a + rep + b` |
| Text.ReplaceFirstAtStart | index.js:58-60 | replacing a pattern that starts the string replaces that prefix |
| Text.EndsWith | index.js:57-61 | `s.endsWith(suffix)`: the string ends with the suffix's characters; used for the `.git` test at line 57 and the `/` test at line 61 |
| Text.Decimal | index.js:71 | the http code rendered in a message is a non-empty string of digits whose value is the code, with no leading zero, as JavaScript prints a number |
| Resolver.Normalize | index.js:56-64 | the resolved path is never longer than the raw URL; a URL with no host, no `.git` suffix and no trailing `/` is kept as it is |
| Resolver.StripHost | index.js:58-60 | removing the host from a URL that starts with it leaves the rest |
| Resolver.StripFirstGit | index.js:58 | removing `.git` from `a + ".git" + b`, when `a` has none, gives `a + b` |
| Resolver.NormalizeGitUrl | index.js:57-58 | `https://github.com<path>.git` resolves to `<path>` when the path holds no other `.git` |
| Resolver.NormalizeSlashUrl | index.js:59-63 | `https://github.com<path>/` resolves to `<path>` |
| Resolver.NormalizeBareUrl | index.js:59-63 | `https://github.com<path>` resolves to `<path>` when the path starts with `/` and ends with neither `/` nor `.git` |
| Resolver.NormalizeSpellings | index.js:56-64 | the `.git`, trailing-slash and bare spellings of `https://github.com/org/repo` all resolve to `/org/repo` |
| Resolver.NormalizeRemovesFirstGit | index.js:58 | when `.git` also occurs inside the name, the first one is removed and the final `.git` stays |
| Resolver.NormalizePagesRepository | index.js:58 | `https://github.com/org/my.github.io.git` resolves to `/org/myhub.io.git` |
| Resolver.NormalizeKeepsSecondSlash | index.js:61-63 | only one trailing `/` is removed |
| KeySets.Insert | index.js:95-96 | `o[k] = 1`: the key set gains exactly `k`; old keys keep their order; a key already present changes nothing; no key is ever held twice |
| KeySets.InsertTwice | index.js:71 | inserting the same message twice is inserting it once |
| KeySets.Flatten | index.js:114-127 | a cell is empty exactly when its key set is |
| KeySets.FlattenAppend | index.js:115-117 | a key inserted last goes last in the cell, followed by `,` |
| KeySets.SplitFlatten | index.js:114-127 | when no key holds a `,`, the cell reads back as the key list |
| KeySets.JoinKeys | index.js:114-117 | the flattening loop produces the cell of the key set |
| Engine.BranchMessage | index.js:71 | defines the log line for a failing branch check: the branch id and the http code in decimal |
| Engine.NotFoundMessage | index.js:79 | defines the log line for a commit id (line 79) or a raw repository URL (line 95) that was not found, with the http code in decimal |
| Engine.FixRefs | index.js:51-55 | defines the commit references of one fix: each commit, in order, with the fix's branch id |
| Engine.Refs | index.js:49-53 | defines the commit references of all fixes in the order the two loops visit them |
| Engine.CheckBranch | index.js:68-75 | defines the branch check: skipped for `DEFAULT_BRANCH` and for a branch already failing in the statement; otherwise the call is recorded, and a failure logs the message, adds the branch id and sets the flag |
| Engine.CheckCommit | index.js:77-82 | defines the commit-existence check: always asked; a failure logs the message, appends `id + ","` and sets the flag |
| Engine.CheckReach | index.js:84-89 | defines the reachability check: always asked; a failure sets the flag, appends `id + ","` and logs the response body |
| Engine.RecordRepositoryFailure | index.js:90-98 | defines the failure branch: the first code for the raw URL is cached, the message with the cached code is logged, the URL joins the repository errors, the flag is set |
| Engine.CheckRef | index.js:54-98 | defines one commit reference: resolve the URL, always ask the repository check, then run the three checks when the raw URL is not cached and the answer is a success, else take the failure branch |
| Engine.WalkRefs | index.js:48-102 | defines the fix and commit loops: `CheckRef` over the references in order |
| Engine.PurlErrors | index.js:104-112 | defines the package-URL cell: the ids the parser rejects, in order, with no separator |
| Engine.Validate | index.js:31-134 | defines one statement: the row built from the walk and the artifacts, the verdict (a walk error or a rejected artifact), the new cache and the calls made |
| Engine.RunStatements | index.js:29-137 | defines a run: each statement, with its own verifier, is validated against the cache the earlier ones left, and adds its row when it fails |
| Engine.WalkRefsAppend | index.js:49-101 | walking two lists of references one after the other is walking their concatenation |
| EngineFacts.RepositoryFailureShortCircuits | index.js:66-67 | a reference whose raw URL is cached, or whose repository check fails, asks only the repository check; its URL joins the repository errors; the first code seen is cached and logged; the flag is set; branch and commit cells are unchanged |
| EngineFacts.RepositoryAcceptedRunsChecks | index.js:67-89 | an accepted reference asks the branch check unless the branch is `DEFAULT_BRANCH` or has already failed, then always both commit checks; each failing commit check appends `id + ","` to its own cell; the log gains, in order, the branch message, the not-found line and the reachability body of the checks that fail; the cache and repository errors are unchanged |
| EngineFacts.BranchStep | index.js:68-75 | the branch check is asked exactly when the branch is not the default one and has not failed; a failure adds the branch id, logs the branch message with the branch check's code, and sets the flag |
| EngineFacts.CommitStep | index.js:77-82 | the existence check is always asked; a failure appends `id + ","`, logs the not-found line with the check's code, and sets the flag |
| EngineFacts.ReachStep | index.js:84-89 | the reachability check is always asked; a failure appends `id + ","`, logs the response body, and sets the flag |
| EngineFacts.CacheExact | index.js:90-93 | after some references the cache holds the URLs cached before, with their codes unchanged, plus exactly the referenced URLs whose repository check fails, with that failure's code |
| EngineFacts.AcceptedAgainstStart | index.js:67 | a reference takes the accepted branch exactly when its URL was not cached when the walk started and its repository check succeeds |
| EngineFacts.RepositoryErrorsExact | index.js:96 | the repository-error keys are those held before plus exactly the referenced URLs now in the cache |
| EngineFacts.BranchErrorsExact | index.js:68-74 | the branch-error keys after some references are those held before plus exactly the branch ids of the references whose branch check runs and fails: not `DEFAULT_BRANCH`, repository accepted against the starting cache, branch not found |
| EngineFacts.CommitCells | index.js:77-89 | the two commit cells are the failed commit ids of the accepted references, in order and with repeats |
| EngineFacts.CommitErrorsRepeat | index.js:80 | a failing commit referenced twice is listed twice |
| EngineFacts.FlagStep | index.js:71-97 | one reference keeps the flag true exactly when the log and the error cells are non-empty |
| EngineFacts.BranchKeepsFlag | index.js:70-74 | the branch check keeps that agreement |
| EngineFacts.CommitKeepsFlag | index.js:78-82 | the existence check keeps that agreement |
| EngineFacts.ReachKeepsFlag | index.js:85-89 | the reachability check keeps that agreement |
| EngineFacts.ErrorLogSound | index.js:71-95 | every line in the error log after some references is one it held before, the not-found line of a referenced URL cached as failing or failing now (with the cached code), the not-found line or reachability body of an accepted reference whose check fails, or the branch message of the first reference whose branch check fails for its id |
| EngineFacts.ErrorLogComplete | index.js:71-95 | every such line is in the error log: old lines are kept, and each failing check of each reference leaves its line |
| EngineFacts.BranchErrorLogged | index.js:69-73 | every new branch error has a first failing reference, in loop order, whose branch message is the one the log carries; a later reference with the same id is not asked |
| EngineFacts.ErrorFlagConsistent | index.js:37-98 | the flag is set exactly when the error log is non-empty, and exactly when some error cell is non-empty |
| EngineFacts.WellFormedStep | index.js:68-98 | one reference keeps every key set free of repeats and `DEFAULT_BRANCH` out of the branch errors; a new branch error is the reference's branch id |
| EngineFacts.BranchKeepsKeySets | index.js:68-75 | the branch check keeps the key sets well formed |
| EngineFacts.CommitKeepsKeySets | index.js:77-82 | the existence check keeps the key sets well formed |
| EngineFacts.ReachKeepsKeySets | index.js:84-89 | the reachability check keeps the key sets well formed |
| EngineFacts.KeySetsStayWellFormed | index.js:44-46 | no key set ever holds a key twice, `DEFAULT_BRANCH` is never a branch error, and each branch error is the branch id of some fix |
| EngineFacts.ExtendsByQuery | index.js:66-89 | appending an allowed call keeps the branch-check guarantee |
| EngineFacts.ExtendsByBranch | index.js:68-69 | the branch check only asks about an allowed branch |
| EngineFacts.ExtendsStep | index.js:54-98 | one reference only appends calls and branch errors and asks no forbidden branch check |
| EngineFacts.BranchChecksSkipped | index.js:68-69 | no branch check is ever asked for `DEFAULT_BRANCH` or for a branch that has already failed in the statement; calls and branch errors are only added |
| EngineFacts.FailedBranchNotAskedAgain | index.js:69 | after a branch fails, no later reference of the statement asks about it |
| EngineFacts.CountBranch | index.js:69 | the branch check asks no repository check |
| EngineFacts.CountCommit | index.js:77 | the existence check asks no repository check |
| EngineFacts.CountReach | index.js:84 | the reachability check asks no repository check |
| EngineFacts.CountStep | index.js:66 | each reference asks exactly one repository check |
| EngineFacts.EveryReferenceAsksRepository | index.js:66 | the repository check is asked once per reference, so a URL referenced twice is asked about twice |
| StatementFacts.ReferencedUrls | index.js:49-55 | the URLs the loops visit are exactly the repositories named by some commit of some fix |
| StatementFacts.ReferencedSnoc | index.js:49-55 | the commits of one more fix add exactly their repositories |
| StatementFacts.StatementRepositoryErrors | index.js:90-98 | a statement's repository errors are exactly the URLs it references that were cached before it or whose repository check fails |
| StatementFacts.StatementCache | index.js:29 | after a statement the run-wide cache keeps every earlier code and gains exactly the failing referenced URLs, with their codes |
| StatementFacts.CacheKeptUntil | index.js:29-30 | the cache left after statement `i` is kept, codes included, by every statement up to `j` |
| StatementFacts.StickyRepositoryFailure | index.js:29-98 | a URL that failed in statement `i` is a repository error of every later statement `j` that references it; statement `j` then fails and adds its row, whatever the API answers for it |
| StatementFacts.ErrorLogCell | index.js:66-117 | the error-log cell lists, each once, exactly the lines the statement's failing checks log, and each branch id in the branch-error cell has there the branch message with the code of its first failing reference |
| StatementFacts.StatementCommitCells | index.js:77-89 | the commit cells of the row are the failed commit ids of the references that were accepted |
| StatementFacts.VerdictMeansError | index.js:129-134 | a statement fails exactly when its error log is non-empty or an artifact is rejected, and exactly when an error cell is non-empty or an artifact is rejected |
| StatementFacts.VerdictFromAnswers | index.js:67-110 | a statement fails exactly when a referenced repository is cached as failing or not found, a branch check runs and fails, a commit of an accepted reference is not found or is on no branch, or an artifact id is rejected |
| StatementFacts.SomeRepositoryError | index.js:90-96 | the statement has a repository error exactly when some referenced URL is cached as failing or not found |
| StatementFacts.SomeBranchError | index.js:68-74 | the statement has a branch error exactly when some commit reference's branch check runs and fails |
| StatementFacts.RefsMembers | index.js:49-55 | the references the loops visit are exactly the commits of the fixes, each with its fix's branch id |
| StatementFacts.BranchErrorCell | index.js:124-127 | the branch-error cell lists exactly the branch ids whose branch check ran and failed, each once and never `DEFAULT_BRANCH`, and reads back as that list when no id holds a `,` |
| StatementFacts.ReferencedBranches | index.js:50 | every branch id the loops visit is the id of some fix |
| StatementFacts.RepositoryAskedPerReference | index.js:66 | a statement asks as many repository checks as it has commit references |
| StatementFacts.CleanStatement | index.js:37-48 | a statement with no fixes and only accepted artifacts gives an empty row, passes, asks nothing and leaves the cache alone |
| StatementFacts.AcceptedArtifactsLeaveNoText | index.js:104-112 | accepted artifacts leave the package-URL cell empty |
| StatementFacts.PurlErrorsAppend | index.js:104-112 | the cell of a list is the cells of its parts, concatenated |
| StatementFacts.AcceptedArtifactIgnored | index.js:106-107 | an accepted artifact anywhere in the list leaves no trace |
| StatementFacts.PurlErrorsAmbiguous | index.js:110 | with no separator, rejected ids `x + y, z` and `x, y + z` give the same cell |
| StatementFacts.RunKeepsCacheAndRows | index.js:29-30 | across a run, no cached code is replaced and rows are only appended, at most one per statement |
| Run.Run.constructor | index.js:29 | a run starts with an empty cache and no rows |
| Run.Run.ValidateStatement | index.js:31-134 | the row, the verdict, the API calls and the new cache are those of the specification; a row is added exactly when the statement fails |
| Run.Run.StartStatement | index.js:37-46 | the statement's key sets and commit cells start empty and the flag false; the run-wide cache is kept |
| Run.Run.CheckArtifacts | index.js:104-112 | the artifact loop returns the package-URL cell and sets the flag exactly when some artifact id is rejected |
| Run.Run.CheckFixes | index.js:48-102 | the fix loop continues the walk over all the statement's references |
| Run.Run.CheckCommits | index.js:50-100 | the commit loop of one fix continues the walk over that fix's references |
| Run.Run.CheckCommitRef | index.js:54-98 | the checks for one commit reference are one step of the specification |
| Run.Run.BranchCheck | index.js:68-75 | the branch check changes the state as `CheckBranch` specifies |
| Run.Run.CommitCheck | index.js:77-82 | the commit-existence check changes the state as `CheckCommit` specifies |
| Run.Run.ReachCheck | index.js:84-89 | the reachability check changes the state as `CheckReach` specifies |
| Run.Run.RepositoryFailure | index.js:90-98 | the failure branch changes the state as `RecordRepositoryFailure` specifies |
| Run.Run.ValidateAll | index.js:30-137 | the statement loop, with one verifier per statement, leaves the cache and the rows the specification gives for the run |

## Left out

- Reading the directory, `statement.yaml` and its YAML (lines 1-3 and
  23-34) is input; the model starts from the statements already read, in
  directory order. An absent `fixes`, `commits` or `artifacts` list is
  modelled as the empty list.
- The Excel workbook, its columns and `writeFile` (lines 4, 11-21, 139-151)
  are output; the model keeps the rows as a list of `Analysis` records.
- Console messages and `process.argv` (lines 8-9, 131-136) are output and
  input. The authentication token is folded into the `Verifier` oracle.
- The GitHub API client `./gitapi` is not part of this model. Its four
  calls are oracle functions. An answer is either a success or an error
  with an http code and a body. Other `type` values are not modelled.
  Lines 67 and 78 test them differently (`== "success"` against
  `== "error"`).
- The oracles are functions, so within one statement the same question
  gets the same answer. Each statement of a run has its own `Verifier`
  (`Engine.RunStatements`, `Run.Run.ValidateAll`). Answers that change in
  the middle of a statement are not modelled.
- `packageurl-js` is not part of this model; `PackageURL.fromString`
  throwing is the predicate `purlOk` being false.
- An http code of `0` or `undefined` would be stored at line 92 as a falsy
  value, so it would not short-circuit later references. The model takes
  http codes to be positive (`HttpCode`), so a cached URL always counts as
  cached.
- A commit reference without a `repository` string makes `endsWith` throw
  and stops the program; the model requires the field to be present.
- `Object.keys` lists integer-like keys (a branch id such as `"123"`)
  first, in numeric order, before the other keys in insertion order. The
  model keeps insertion order for every key.
- `for ... in` also visits inherited enumerable properties of the arrays;
  the model visits the elements in order.
- Reading an object key also finds the properties every object inherits
  from `Object.prototype`, and the model treats every string as an
  ordinary key:
  - At lines 67 and 91, a raw repository URL such as `constructor` or
    `toString` reads as already cached in `repositoryError`. The reference
    takes the failure branch, and the logged "code" is the inherited
    function's text. In the model such a URL is cached only if it failed.
  - At line 69, a branch id such as `constructor` reads as already failing
    and is never checked. In the model it is checked.
  - Assigning `o["__proto__"] = 1` (lines 71, 73, 79, 88, 95, 96) creates
    no key. This matters, for example, for a reachability error body
    `__proto__`. In the model `KeySets.Insert` adds it like any other key.
