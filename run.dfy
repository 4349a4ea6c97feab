/** The validation run of index.js: the run-wide repository cache and the
    report rows, updated statement after statement (lines 29-137). */
module Run {
  import opened Resolver
  import opened KeySets
  import opened Engine

  class Run {
    /** `repositoryError` (line 29): raw repository URL to the http code of
        its first failure, kept for the whole run. */
    var repositoryError: map<string, HttpCode>
    /** The rows added to the worksheet. */
    var rows: seq<Analysis>

    /** What the statement being validated has built (lines 37-46): its key
        sets, its two commit cells and its error flag. */
    var errorLog: seq<string>
    var analysisRepositoryError: seq<string>
    var analysisBranchError: seq<string>
    var commitsError: string
    var commitsNoBranchError: string
    var isError: bool
    /** The hosting API calls made for the statement, in order. */
    ghost var queries: seq<Query>

    /** The statement's working state together with the run-wide cache. */
    ghost function State(): Walk
      reads this
    {
      Walk(repositoryError, errorLog, analysisRepositoryError, analysisBranchError,
           commitsError, commitsNoBranchError, isError, queries)
    }

    constructor ()
      ensures repositoryError == map[] && rows == []
    {
      repositoryError := map[];
      rows := [];
      errorLog, analysisRepositoryError, analysisBranchError := [], [], [];
      commitsError, commitsNoBranchError, isError := "", "", false;
      queries := [];
    }

    /** The body of the statement loop (lines 31-134). */
    method ValidateStatement(statement: Statement, verifier: Verifier, purlOk: string -> bool)
      returns (analysis: Analysis)
      modifies this
      ensures var o := Validate(old(repositoryError), statement, verifier, purlOk);
        && analysis == o.analysis && isError == o.isError
        && repositoryError == o.cache && queries == o.queries
      ensures rows == old(rows) + (if isError then [analysis] else [])
    {
      StartStatement();
      CheckFixes(statement.fixes, verifier);
      ghost var walk := State();
      var purlError := CheckArtifacts(statement.artifacts, purlOk);

      var errorLogText := JoinKeys(errorLog);
      var repositoryErrorText := JoinKeys(analysisRepositoryError);
      var branchErrorText := JoinKeys(analysisBranchError);
      analysis := Analysis(statement.vulnerabilityId, repositoryErrorText, commitsError,
                           commitsNoBranchError, branchErrorText, purlError, errorLogText);
      assert walk == StatementWalk(old(repositoryError), statement, verifier);

      if isError {
        rows := rows + [analysis];
      }
    }

    /** Lines 37-46: the statement's key sets, commit cells and flag start
        out empty; the run-wide cache is kept. */
    method StartStatement()
      modifies this`errorLog, this`analysisRepositoryError, this`analysisBranchError,
               this`commitsError, this`commitsNoBranchError, this`isError, this`queries
      ensures State() == Initial(repositoryError)
    {
      isError := false;
      commitsError, commitsNoBranchError := "", "";
      errorLog, analysisRepositoryError, analysisBranchError := [], [], [];
      queries := [];
    }

    /** Lines 104-112: the package-URL check of each artifact; the rejected
        ids are returned, concatenated. */
    method CheckArtifacts(artifacts: seq<Artifact>, purlOk: string -> bool) returns (purlError: string)
      modifies this`isError
      ensures purlError == PurlErrors(artifacts, purlOk)
      ensures isError == (old(isError) || SomePurlFails(artifacts, purlOk))
    {
      purlError := "";
      var artifactIndex := 0;
      while artifactIndex < |artifacts|
        invariant 0 <= artifactIndex <= |artifacts|
        invariant purlError == PurlErrors(artifacts[..artifactIndex], purlOk)
        invariant isError == (old(isError) || SomePurlFails(artifacts[..artifactIndex], purlOk))
      {
        if !purlOk(artifacts[artifactIndex].id) {
          isError := true;
          purlError := purlError + artifacts[artifactIndex].id;
        }
        assert artifacts[..artifactIndex + 1][..artifactIndex] == artifacts[..artifactIndex];
        artifactIndex := artifactIndex + 1;
      }
      assert artifacts[..artifactIndex] == artifacts;
    }

    /** Lines 48-102: the fix loop, continuing from the statement's state. */
    method CheckFixes(fixes: seq<Fix>, verifier: Verifier)
      modifies this`repositoryError, this`errorLog, this`analysisRepositoryError, this`analysisBranchError,
               this`commitsError, this`commitsNoBranchError, this`isError, this`queries
      ensures State() == WalkRefs(old(State()), Refs(fixes), verifier)
    {
      ghost var start := State();
      var fixIndex := 0;
      while fixIndex < |fixes|
        invariant 0 <= fixIndex <= |fixes|
        invariant State() == WalkRefs(start, Refs(fixes[..fixIndex]), verifier)
      {
        ghost var walked := Refs(fixes[..fixIndex]);
        CheckCommits(fixes[fixIndex], verifier);
        WalkRefsAppend(start, walked, FixRefs(fixes[fixIndex]), verifier);
        RefsSnoc(fixes, fixIndex);
        fixIndex := fixIndex + 1;
      }
      assert fixes[..fixIndex] == fixes;
    }

    /** Lines 50-100: the commit loop of one fix. */
    method CheckCommits(fix: Fix, verifier: Verifier)
      modifies this`repositoryError, this`errorLog, this`analysisRepositoryError, this`analysisBranchError,
               this`commitsError, this`commitsNoBranchError, this`isError, this`queries
      ensures State() == WalkRefs(old(State()), FixRefs(fix), verifier)
    {
      ghost var start := State();
      var branch := fix.branchId;
      var commits := fix.commits;
      ghost var refs := FixRefs(fix);
      var commitIndex := 0;
      while commitIndex < |commits|
        invariant 0 <= commitIndex <= |commits|
        invariant |refs| == |commits|
        invariant State() == WalkRefs(start, refs[..commitIndex], verifier)
      {
        assert refs[commitIndex] == Ref(branch, commits[commitIndex]);
        CheckCommitRef(branch, commits[commitIndex], verifier);
        WalkRefsPrefix(start, refs, commitIndex, verifier);
        commitIndex := commitIndex + 1;
      }
      assert refs[..commitIndex] == refs;
    }

    /** Lines 54-98: the checks for one commit reference. */
    method CheckCommitRef(branch: string, commit: CommitRef, verifier: Verifier)
      modifies this`repositoryError, this`errorLog, this`analysisRepositoryError, this`analysisBranchError,
               this`commitsError, this`commitsNoBranchError, this`isError, this`queries
      ensures State() == CheckRef(old(State()), Ref(branch, commit), verifier)
    {
      var commitId := commit.id;
      var commitRepo := commit.repository;
      var repo := Normalize(commitRepo);

      var repoStatus := verifier.isRepository(repo);
      queries := queries + [RepositoryQuery(repo)];
      if commitRepo !in repositoryError && repoStatus.Success? {
        BranchCheck(branch, repo, verifier);
        CommitCheck(commitId, repo, verifier);
        ReachCheck(commitId, repo, verifier);
      } else {
        RepositoryFailure(commitRepo, repoStatus);
      }
    }

    /** Lines 68-75: the branch check of an accepted reference. */
    method BranchCheck(branch: string, repo: string, verifier: Verifier)
      modifies this`errorLog, this`analysisBranchError, this`isError, this`queries
      ensures State() == CheckBranch(old(State()), branch, repo, verifier)
    {
      if branch != DefaultBranch && branch !in analysisBranchError {
        var branchStatus := verifier.isBranch(repo, branch);
        queries := queries + [BranchQuery(repo, branch)];
        if branchStatus.Failure? {
          errorLog := Insert(errorLog, BranchMessage(branch, branchStatus.httpCode));
          isError := true;
          analysisBranchError := Insert(analysisBranchError, branch);
        }
      }
    }

    /** Lines 77-82: the commit-existence check of an accepted reference. */
    method CommitCheck(commitId: string, repo: string, verifier: Verifier)
      modifies this`errorLog, this`commitsError, this`isError, this`queries
      ensures State() == CheckCommit(old(State()), commitId, repo, verifier)
    {
      var commitStatus := verifier.isCommit(repo, commitId);
      queries := queries + [CommitQuery(repo, commitId)];
      if commitStatus.Failure? {
        errorLog := Insert(errorLog, NotFoundMessage(commitId, commitStatus.httpCode));
        commitsError := commitsError + commitId + ",";
        isError := true;
      }
    }

    /** Lines 84-89: the reachability check of an accepted reference. */
    method ReachCheck(commitId: string, repo: string, verifier: Verifier)
      modifies this`errorLog, this`commitsNoBranchError, this`isError, this`queries
      ensures State() == CheckReach(old(State()), commitId, repo, verifier)
    {
      var commitWithoutABranch := verifier.isCommitHasABranch(repo, commitId);
      queries := queries + [ReachQuery(repo, commitId)];
      if commitWithoutABranch.Failure? {
        isError := true;
        commitsNoBranchError := commitsNoBranchError + commitId + ",";
        errorLog := Insert(errorLog, commitWithoutABranch.body);
      }
    }

    /** Lines 90-98: a raw URL cached as failing, or whose repository check
        has just failed. */
    method RepositoryFailure(commitRepo: string, repoStatus: Status)
      requires commitRepo in repositoryError || repoStatus.Failure?
      modifies this`repositoryError, this`errorLog, this`analysisRepositoryError, this`isError
      ensures State() == RecordRepositoryFailure(old(State()), commitRepo, repoStatus)
    {
      if commitRepo !in repositoryError {
        repositoryError := repositoryError[commitRepo := repoStatus.httpCode];
      }
      errorLog := Insert(errorLog, NotFoundMessage(commitRepo, repositoryError[commitRepo]));
      analysisRepositoryError := Insert(analysisRepositoryError, commitRepo);
      isError := true;
    }

    /** The statement loop (lines 30-137) over statements already read; the
        hosting API answers statement `i` as `verifiers[i]` does. */
    method ValidateAll(statements: seq<Statement>, verifiers: seq<Verifier>, purlOk: string -> bool)
      requires |verifiers| == |statements|
      modifies this
      ensures Report(repositoryError, rows)
              == RunStatements(Report(old(repositoryError), old(rows)), statements, verifiers, purlOk)
    {
      var i := 0;
      while i < |statements|
        invariant 0 <= i <= |statements|
        invariant Report(repositoryError, rows)
                  == RunStatements(Report(old(repositoryError), old(rows)), statements[..i], verifiers[..i], purlOk)
      {
        var analysis := ValidateStatement(statements[i], verifiers[i], purlOk);
        RunSnoc(Report(old(repositoryError), old(rows)), statements, verifiers, purlOk, i);
        i := i + 1;
      }
      assert statements[..i] == statements;
      assert verifiers[..i] == verifiers;
    }
  }
}
