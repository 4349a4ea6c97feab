/** The statement validator of index.js: the data it reads, the hosting API
    and package-URL parser it consults, and a step-by-step specification of
    the checks made for one statement (lines 29-134). The imperative
    version that the program runs is `Run.Run.ValidateStatement`; the
    properties of this specification are in `EngineFacts`. */
module Engine {
  import opened Text
  import opened Resolver
  import opened KeySets

  /** The branch id meaning "the repository's default branch, not checked". */
  const DefaultBranch := "DEFAULT_BRANCH"

  /** The http status code of a failed API call; a positive number, so that a
      code stored in the repository cache always reads as "cached". */
  type HttpCode = n: nat | n > 0 witness 404

  /** The answer of one hosting API call: `type == "success"`, or an error
      with its `httpcode` and its `body`. */
  datatype Status = Success | Failure(httpCode: HttpCode, body: string)

  datatype CommitRef = CommitRef(id: string, repository: string)

  /** An absent `commits` list is the empty one. */
  datatype Fix = Fix(branchId: string, commits: seq<CommitRef>)

  datatype Artifact = Artifact(id: string)

  /** An absent `fixes` or `artifacts` list is the empty one. */
  datatype Statement = Statement(vulnerabilityId: string, fixes: seq<Fix>, artifacts: seq<Artifact>)

  /** The four calls of the hosting API client, with the authentication token
      already applied: repository path, then branch or commit id. */
  datatype Verifier = Verifier(
    isRepository: string -> Status,
    isBranch: (string, string) -> Status,
    isCommit: (string, string) -> Status,
    isCommitHasABranch: (string, string) -> Status)

  /** One call made to the hosting API, in the order made. */
  datatype Query =
    | RepositoryQuery(repo: string)
    | BranchQuery(repo: string, branch: string)
    | CommitQuery(repo: string, commitId: string)
    | ReachQuery(repo: string, commitId: string)

  /** The row written to the report for a statement with errors. */
  datatype Analysis = Analysis(
    vulnerabilityId: string,
    repositoryError: string,
    commitsError: string,
    commitsNoBranchError: string,
    branchError: string,
    purlError: string,
    errorLog: string)

  /** One commit reference together with the branch id of its fix. */
  datatype Ref = Ref(branchId: string, commit: CommitRef)

  /** What the fix loop has built so far: the run-wide repository cache
      (`repositoryError`), the statement's key sets `errorLog`,
      `analysisRepositoryError` and `analysisBranchError`, the two commit
      cells, the `isError` flag, and the API calls made. */
  datatype Walk = Walk(
    cache: map<string, HttpCode>,
    errorLog: seq<string>,
    repositoryErrors: seq<string>,
    branchErrors: seq<string>,
    commitsError: string,
    commitsNoBranchError: string,
    isError: bool,
    queries: seq<Query>)

  datatype Outcome = Outcome(
    analysis: Analysis,
    isError: bool,
    cache: map<string, HttpCode>,
    queries: seq<Query>)

  function BranchMessage(branch: string, code: HttpCode): string {
    "git api failed to get branch " + branch + " with http status code " + Decimal(code)
  }

  /** The log line for a commit id or a raw repository URL that was not found. */
  function NotFoundMessage(name: string, code: HttpCode): string {
    "git api failed to get " + name + " with http status code " + Decimal(code)
  }

  /** The commit references of one fix, in order. */
  function FixRefs(fix: Fix): seq<Ref> {
    seq(|fix.commits|, k requires 0 <= k < |fix.commits| => Ref(fix.branchId, fix.commits[k]))
  }

  /** The commit references of all fixes, in the order the loops visit them. */
  function Refs(fixes: seq<Fix>): seq<Ref> {
    if fixes == [] then [] else Refs(fixes[..|fixes| - 1]) + FixRefs(fixes[|fixes| - 1])
  }

  lemma RefsSnoc(fixes: seq<Fix>, i: nat)
    requires i < |fixes|
    ensures Refs(fixes[..i + 1]) == Refs(fixes[..i]) + FixRefs(fixes[i])
  {
    assert fixes[..i + 1][..i] == fixes[..i];
  }

  function Initial(cache: map<string, HttpCode>): Walk {
    Walk(cache, [], [], [], "", "", false, [])
  }

  /** Lines 68-75: the branch check, skipped for the default branch and for a
      branch already recorded as failing in this statement. */
  function CheckBranch(w: Walk, branch: string, repo: string, v: Verifier): Walk {
    if branch != DefaultBranch && branch !in w.branchErrors then
      var status := v.isBranch(repo, branch);
      var w := w.(queries := w.queries + [BranchQuery(repo, branch)]);
      if status.Failure? then
        w.(errorLog := Insert(w.errorLog, BranchMessage(branch, status.httpCode)),
           isError := true,
           branchErrors := Insert(w.branchErrors, branch))
      else w
    else w
  }

  /** Lines 77-82: the commit-existence check. */
  function CheckCommit(w: Walk, commitId: string, repo: string, v: Verifier): Walk {
    var status := v.isCommit(repo, commitId);
    var w := w.(queries := w.queries + [CommitQuery(repo, commitId)]);
    if status.Failure? then
      w.(errorLog := Insert(w.errorLog, NotFoundMessage(commitId, status.httpCode)),
         commitsError := w.commitsError + commitId + ",",
         isError := true)
    else w
  }

  /** Lines 84-89: the check that some branch contains the commit. */
  function CheckReach(w: Walk, commitId: string, repo: string, v: Verifier): Walk {
    var status := v.isCommitHasABranch(repo, commitId);
    var w := w.(queries := w.queries + [ReachQuery(repo, commitId)]);
    if status.Failure? then
      w.(isError := true,
         commitsNoBranchError := w.commitsNoBranchError + commitId + ",",
         errorLog := Insert(w.errorLog, status.body))
    else w
  }

  /** Lines 90-98: a repository already cached as failing, or failing now.
      The first code seen for a raw URL is kept. */
  function RecordRepositoryFailure(w: Walk, url: string, status: Status): Walk
    requires url in w.cache || status.Failure?
  {
    var cache := if url in w.cache then w.cache else w.cache[url := status.httpCode];
    w.(cache := cache,
       errorLog := Insert(w.errorLog, NotFoundMessage(url, cache[url])),
       repositoryErrors := Insert(w.repositoryErrors, url),
       isError := true)
  }

  /** Lines 54-98: one commit reference. The repository is always asked
      about; the other checks run only when its raw URL is not cached as
      failing and the answer is a success. */
  function CheckRef(w: Walk, r: Ref, v: Verifier): Walk {
    var url := r.commit.repository;
    var repo := Normalize(url);
    var status := v.isRepository(repo);
    var w := w.(queries := w.queries + [RepositoryQuery(repo)]);
    if url !in w.cache && status.Success? then
      CheckReach(CheckCommit(CheckBranch(w, r.branchId, repo, v), r.commit.id, repo, v), r.commit.id, repo, v)
    else
      RecordRepositoryFailure(w, url, status)
  }

  /** Lines 48-102: the commit references one after the other. */
  function WalkRefs(w: Walk, refs: seq<Ref>, v: Verifier): Walk {
    if refs == [] then w else CheckRef(WalkRefs(w, refs[..|refs| - 1], v), refs[|refs| - 1], v)
  }

  /** Walking one reference further along a list is one more `CheckRef`. */
  lemma WalkRefsPrefix(w: Walk, refs: seq<Ref>, i: nat, v: Verifier)
    requires i < |refs|
    ensures WalkRefs(w, refs[..i + 1], v) == CheckRef(WalkRefs(w, refs[..i], v), refs[i], v)
  {
    assert refs[..i + 1][..i] == refs[..i];
  }

  lemma WalkRefsSnoc(w: Walk, refs: seq<Ref>, r: Ref, v: Verifier)
    ensures WalkRefs(w, refs + [r], v) == CheckRef(WalkRefs(w, refs, v), r, v)
  {
    assert (refs + [r])[..|refs|] == refs;
  }

  lemma {:induction false} WalkRefsAppend(w: Walk, refs: seq<Ref>, more: seq<Ref>, v: Verifier)
    ensures WalkRefs(w, refs + more, v) == WalkRefs(WalkRefs(w, refs, v), more, v)
    decreases |more|
  {
    if more == [] {
      assert refs + more == refs;
    } else {
      var init := more[..|more| - 1];
      assert refs + more == (refs + init) + [more[|more| - 1]];
      assert init + [more[|more| - 1]] == more;
      WalkRefsSnoc(w, refs + init, more[|more| - 1], v);
      WalkRefsAppend(w, refs, init, v);
      WalkRefsSnoc(WalkRefs(w, refs, v), init, more[|more| - 1], v);
    }
  }

  function StatementWalk(cache: map<string, HttpCode>, s: Statement, v: Verifier): Walk {
    WalkRefs(Initial(cache), Refs(s.fixes), v)
  }

  /** Lines 104-112: the ids of the artifacts the parser rejects, in order and
      with no separator. */
  function PurlErrors(artifacts: seq<Artifact>, purlOk: string -> bool): string {
    if artifacts == [] then ""
    else
      var a := artifacts[|artifacts| - 1];
      PurlErrors(artifacts[..|artifacts| - 1], purlOk) + (if purlOk(a.id) then "" else a.id)
  }

  predicate SomePurlFails(artifacts: seq<Artifact>, purlOk: string -> bool) {
    exists i :: 0 <= i < |artifacts| && !purlOk(artifacts[i].id)
  }

  /** Lines 31-134 for one statement, given the run-wide repository cache
      before it. */
  function Validate(cache: map<string, HttpCode>, s: Statement, v: Verifier, purlOk: string -> bool): Outcome {
    var w := StatementWalk(cache, s, v);
    var analysis := Analysis(
      s.vulnerabilityId,
      Flatten(w.repositoryErrors),
      w.commitsError,
      w.commitsNoBranchError,
      Flatten(w.branchErrors),
      PurlErrors(s.artifacts, purlOk),
      Flatten(w.errorLog));
    Outcome(analysis, w.isError || SomePurlFails(s.artifacts, purlOk), w.cache, w.queries)
  }

  /** The run-wide state: the repository cache and the report rows. */
  datatype Report = Report(cache: map<string, HttpCode>, rows: seq<Analysis>)

  /** Lines 29-137: the statements one after the other; a row is added for
      each statement with an error. The hosting API may answer differently
      over a run, so each statement is checked against its own `Verifier`. */
  function RunStatements(r: Report, statements: seq<Statement>, verifiers: seq<Verifier>,
                         purlOk: string -> bool): Report
    requires |verifiers| == |statements|
  {
    if statements == [] then r
    else
      var n := |statements| - 1;
      var before := RunStatements(r, statements[..n], verifiers[..n], purlOk);
      var o := Validate(before.cache, statements[n], verifiers[n], purlOk);
      Report(o.cache, before.rows + (if o.isError then [o.analysis] else []))
  }

  /** The run after statement `j`: statement `j` is checked against the
      cache the earlier statements left, and adds a row when it fails. */
  lemma RunSnoc(r: Report, statements: seq<Statement>, verifiers: seq<Verifier>,
                purlOk: string -> bool, j: nat)
    requires |verifiers| == |statements| && j < |statements|
    ensures var before := RunStatements(r, statements[..j], verifiers[..j], purlOk);
      var o := Validate(before.cache, statements[j], verifiers[j], purlOk);
      RunStatements(r, statements[..j + 1], verifiers[..j + 1], purlOk)
        == Report(o.cache, before.rows + (if o.isError then [o.analysis] else []))
  {
    assert statements[..j + 1][..j] == statements[..j];
    assert verifiers[..j + 1][..j] == verifiers[..j];
  }
}
