/** Properties of the statement validator specified in `Engine`: what one
    commit reference does, what the fix loop as a whole computes, and what a
    statement's verdict and report cells mean. */
module EngineFacts {
  import opened Resolver
  import opened KeySets
  import opened Engine

  /** The raw repository URLs of some commit references. */
  ghost function Urls(refs: seq<Ref>): set<string> {
    set r | r in refs :: r.commit.repository
  }

  ghost function BranchIds(refs: seq<Ref>): set<string> {
    set r | r in refs :: r.branchId
  }

  ghost predicate RepositoryFails(v: Verifier, url: string) {
    v.isRepository(Normalize(url)).Failure?
  }

  /** The reference's later checks run: its raw URL was not cached as failing
      when the statement started and the repository check succeeds. */
  predicate Accepted(cache: map<string, HttpCode>, v: Verifier, url: string) {
    url !in cache && v.isRepository(Normalize(url)).Success?
  }

  lemma UrlsLast(refs: seq<Ref>)
    requires refs != []
    ensures var p, r := refs[..|refs| - 1], refs[|refs| - 1];
      && Urls(refs) == Urls(p) + {r.commit.repository}
      && BranchIds(refs) == BranchIds(p) + {r.branchId}
  {
    var p, r := refs[..|refs| - 1], refs[|refs| - 1];
    assert refs == p + [r];
    assert forall x :: x in refs <==> x in p || x == r;
  }

  // ----- One commit reference -----

  /** A reference whose raw URL is cached as failing, or whose repository
      check fails, asks nothing but the repository check; its raw URL joins
      the statement's repository errors; the first http code seen for the URL
      is the one cached and logged. */
  lemma RepositoryFailureShortCircuits(w: Walk, r: Ref, v: Verifier)
    requires r.commit.repository in w.cache || RepositoryFails(v, r.commit.repository)
    ensures var url, w' := r.commit.repository, CheckRef(w, r, v);
      && w'.queries == w.queries + [RepositoryQuery(Normalize(url))]
      && w'.cache == (if url in w.cache then w.cache
                      else w.cache[url := v.isRepository(Normalize(url)).httpCode])
      && w'.repositoryErrors == Insert(w.repositoryErrors, url)
      && w'.errorLog == Insert(w.errorLog, NotFoundMessage(url, w'.cache[url]))
      && w'.isError
      && w'.branchErrors == w.branchErrors
      && w'.commitsError == w.commitsError
      && w'.commitsNoBranchError == w.commitsNoBranchError
  {
  }

  /** Once the repository check passes, the branch check runs unless the
      branch is the default one or already failed in this statement, and the
      commit-existence and reachability checks both run, each appending the
      commit id to its own cell when it fails. */
  lemma RepositoryAcceptedRunsChecks(w: Walk, r: Ref, v: Verifier)
    requires r.commit.repository !in w.cache && !RepositoryFails(v, r.commit.repository)
    ensures var repo, id, w' := Normalize(r.commit.repository), r.commit.id, CheckRef(w, r, v);
      var branchAsked := r.branchId != DefaultBranch && r.branchId !in w.branchErrors;
      var branchFails := branchAsked && v.isBranch(repo, r.branchId).Failure?;
      && w'.queries == w.queries + [RepositoryQuery(repo)]
                       + (if branchAsked then [BranchQuery(repo, r.branchId)] else [])
                       + [CommitQuery(repo, id), ReachQuery(repo, id)]
      && w'.cache == w.cache
      && w'.repositoryErrors == w.repositoryErrors
      && w'.branchErrors == (if branchFails then Insert(w.branchErrors, r.branchId) else w.branchErrors)
      && w'.commitsError == w.commitsError + (if v.isCommit(repo, id).Failure? then id + "," else "")
      && w'.commitsNoBranchError
         == w.commitsNoBranchError + (if v.isCommitHasABranch(repo, id).Failure? then id + "," else "")
      && w'.isError == (w.isError || branchFails || v.isCommit(repo, id).Failure?
                        || v.isCommitHasABranch(repo, id).Failure?)
    ensures var repo, id, w' := Normalize(r.commit.repository), r.commit.id, CheckRef(w, r, v);
      var branchFails := r.branchId != DefaultBranch && r.branchId !in w.branchErrors
                         && v.isBranch(repo, r.branchId).Failure?;
      var log1 := if branchFails then Insert(w.errorLog, BranchMessage(r.branchId, v.isBranch(repo, r.branchId).httpCode))
                  else w.errorLog;
      var log2 := if v.isCommit(repo, id).Failure? then Insert(log1, NotFoundMessage(id, v.isCommit(repo, id).httpCode))
                  else log1;
      w'.errorLog == if v.isCommitHasABranch(repo, id).Failure? then Insert(log2, v.isCommitHasABranch(repo, id).body)
                     else log2
  {
    var repo, id := Normalize(r.commit.repository), r.commit.id;
    var w0 := w.(queries := w.queries + [RepositoryQuery(repo)]);
    var w1 := CheckBranch(w0, r.branchId, repo, v);
    BranchStep(w0, r.branchId, repo, v);
    var w2 := CheckCommit(w1, id, repo, v);
    CommitStep(w1, id, repo, v);
    var w3 := CheckReach(w2, id, repo, v);
    ReachStep(w2, id, repo, v);
    assert CheckRef(w, r, v) == w3;
  }

  lemma BranchStep(w: Walk, branch: string, repo: string, v: Verifier)
    ensures var w' := CheckBranch(w, branch, repo, v);
      var asked := branch != DefaultBranch && branch !in w.branchErrors;
      var fails := asked && v.isBranch(repo, branch).Failure?;
      && w'.queries == w.queries + (if asked then [BranchQuery(repo, branch)] else [])
      && w'.cache == w.cache && w'.repositoryErrors == w.repositoryErrors
      && w'.branchErrors == (if fails then Insert(w.branchErrors, branch) else w.branchErrors)
      && w'.commitsError == w.commitsError && w'.commitsNoBranchError == w.commitsNoBranchError
      && w'.isError == (w.isError || fails)
      && w'.errorLog == (if fails then Insert(w.errorLog, BranchMessage(branch, v.isBranch(repo, branch).httpCode))
                         else w.errorLog)
  {
  }

  lemma CommitStep(w: Walk, id: string, repo: string, v: Verifier)
    ensures var w' := CheckCommit(w, id, repo, v);
      var fails := v.isCommit(repo, id).Failure?;
      && w'.queries == w.queries + [CommitQuery(repo, id)]
      && w'.cache == w.cache && w'.repositoryErrors == w.repositoryErrors
      && w'.branchErrors == w.branchErrors
      && w'.commitsError == w.commitsError + (if fails then id + "," else "")
      && w'.commitsNoBranchError == w.commitsNoBranchError
      && w'.isError == (w.isError || fails)
      && w'.errorLog == (if fails then Insert(w.errorLog, NotFoundMessage(id, v.isCommit(repo, id).httpCode))
                         else w.errorLog)
  {
  }

  lemma ReachStep(w: Walk, id: string, repo: string, v: Verifier)
    ensures var w' := CheckReach(w, id, repo, v);
      var fails := v.isCommitHasABranch(repo, id).Failure?;
      && w'.queries == w.queries + [ReachQuery(repo, id)]
      && w'.cache == w.cache && w'.repositoryErrors == w.repositoryErrors
      && w'.branchErrors == w.branchErrors
      && w'.commitsError == w.commitsError
      && w'.commitsNoBranchError == w.commitsNoBranchError + (if fails then id + "," else "")
      && w'.isError == (w.isError || fails)
      && w'.errorLog == (if fails then Insert(w.errorLog, v.isCommitHasABranch(repo, id).body) else w.errorLog)
  {
  }

  // ----- The fix loop -----

  /** The run-wide cache after some references: the URLs cached before, plus
      every referenced URL whose repository check fails. A cached code is
      never overwritten; a new one is the code of the failed check. */
  lemma {:induction false} CacheExact(w: Walk, refs: seq<Ref>, v: Verifier)
    ensures var c := WalkRefs(w, refs, v).cache;
      forall url :: url in c <==> url in w.cache || (url in Urls(refs) && RepositoryFails(v, url))
    ensures var c := WalkRefs(w, refs, v).cache;
      forall url :: url in w.cache ==> url in c && c[url] == w.cache[url]
    ensures var c := WalkRefs(w, refs, v).cache;
      forall url :: url in c && url !in w.cache ==>
        RepositoryFails(v, url) && c[url] == v.isRepository(Normalize(url)).httpCode
    decreases |refs|
  {
    if refs != [] {
      var p, r := refs[..|refs| - 1], refs[|refs| - 1];
      CacheExact(w, p, v);
      UrlsLast(refs);
      var wp := WalkRefs(w, p, v);
      if r.commit.repository in wp.cache || RepositoryFails(v, r.commit.repository) {
        RepositoryFailureShortCircuits(wp, r, v);
      } else {
        RepositoryAcceptedRunsChecks(wp, r, v);
      }
    }
  }

  /** A reference takes the failure branch exactly when it is not accepted
      against the cache the walk started from. */
  lemma AcceptedAgainstStart(w: Walk, p: seq<Ref>, r: Ref, v: Verifier)
    ensures var wp, url := WalkRefs(w, p, v), r.commit.repository;
      (url !in wp.cache && !RepositoryFails(v, url)) == Accepted(w.cache, v, url)
  {
    CacheExact(w, p, v);
  }

  /** The statement's repository-error keys after some references: those it
      had, plus every referenced raw URL that is now in the run-wide cache. */
  lemma {:induction false} RepositoryErrorsExact(w: Walk, refs: seq<Ref>, v: Verifier)
    ensures var w' := WalkRefs(w, refs, v);
      forall url :: url in w'.repositoryErrors <==>
        url in w.repositoryErrors || (url in Urls(refs) && url in w'.cache)
    decreases |refs|
  {
    if refs != [] {
      var p, r := refs[..|refs| - 1], refs[|refs| - 1];
      RepositoryErrorsExact(w, p, v);
      UrlsLast(refs);
      var wp := WalkRefs(w, p, v);
      if r.commit.repository in wp.cache || RepositoryFails(v, r.commit.repository) {
        RepositoryFailureShortCircuits(wp, r, v);
      } else {
        RepositoryAcceptedRunsChecks(wp, r, v);
      }
    }
  }

  /** The branch check of `r` runs and fails: the branch is not the default
      one, the reference is accepted against the cache the walk started
      from, and the hosting API does not find the branch. */
  ghost predicate BranchFails(cache: map<string, HttpCode>, v: Verifier, r: Ref) {
    && r.branchId != DefaultBranch
    && Accepted(cache, v, r.commit.repository)
    && v.isBranch(Normalize(r.commit.repository), r.branchId).Failure?
  }

  lemma MembersLast(refs: seq<Ref>)
    requires refs != []
    ensures forall x :: x in refs <==> x in refs[..|refs| - 1] || x == refs[|refs| - 1]
  {
    assert refs == refs[..|refs| - 1] + [refs[|refs| - 1]];
  }

  /** The statement's branch-error keys after some references: those it had,
      plus exactly the branch ids of the references whose branch check fails.
      A branch already failing is not asked about again, but stays listed. */
  lemma {:induction false} BranchErrorsExact(w: Walk, refs: seq<Ref>, v: Verifier)
    ensures forall b :: b in WalkRefs(w, refs, v).branchErrors <==>
      b in w.branchErrors || exists r :: r in refs && r.branchId == b && BranchFails(w.cache, v, r)
    decreases |refs|
  {
    if refs != [] {
      var p, r := refs[..|refs| - 1], refs[|refs| - 1];
      BranchErrorsExact(w, p, v);
      MembersLast(refs);
      var wp := WalkRefs(w, p, v);
      AcceptedAgainstStart(w, p, r, v);
      if r.commit.repository in wp.cache || RepositoryFails(v, r.commit.repository) {
        RepositoryFailureShortCircuits(wp, r, v);
        assert !BranchFails(w.cache, v, r);
      } else {
        RepositoryAcceptedRunsChecks(wp, r, v);
      }
    }
  }

  /** The commit ids, each followed by ',', of the accepted references whose
      `check` fails: one entry per reference, repeats included. */
  function FailedCommits(cache: map<string, HttpCode>, refs: seq<Ref>, v: Verifier,
                         check: (string, string) -> Status): string
  {
    if refs == [] then ""
    else
      var r := refs[|refs| - 1];
      FailedCommits(cache, refs[..|refs| - 1], v, check)
      + (if Accepted(cache, v, r.commit.repository) && check(Normalize(r.commit.repository), r.commit.id).Failure?
         then r.commit.id + "," else "")
  }

  /** The last reference appends to each commit cell what it adds to the
      corresponding `FailedCommits`. */
  lemma CommitCellsLast(w: Walk, refs: seq<Ref>, v: Verifier)
    requires refs != []
    ensures var p := refs[..|refs| - 1];
      var wp, w' := WalkRefs(w, p, v), WalkRefs(w, refs, v);
      var fe, fn := FailedCommits(w.cache, p, v, v.isCommit), FailedCommits(w.cache, p, v, v.isCommitHasABranch);
      var e := FailedCommits(w.cache, refs, v, v.isCommit);
      var n := FailedCommits(w.cache, refs, v, v.isCommitHasABranch);
      && |fe| <= |e| && e == fe + e[|fe|..] && w'.commitsError == wp.commitsError + e[|fe|..]
      && |fn| <= |n| && n == fn + n[|fn|..] && w'.commitsNoBranchError == wp.commitsNoBranchError + n[|fn|..]
  {
    var p, r := refs[..|refs| - 1], refs[|refs| - 1];
    var wp, w' := WalkRefs(w, p, v), WalkRefs(w, refs, v);
    var repo, id := Normalize(r.commit.repository), r.commit.id;
    AcceptedAgainstStart(w, p, r, v);
    if r.commit.repository in wp.cache || RepositoryFails(v, r.commit.repository) {
      RepositoryFailureShortCircuits(wp, r, v);
    } else {
      RepositoryAcceptedRunsChecks(wp, r, v);
    }
  }

  /** The two commit cells after some references are the failed commit ids of
      the accepted references, in order and without deduplication. */
  lemma {:induction false} CommitCells(w: Walk, refs: seq<Ref>, v: Verifier)
    ensures var w' := WalkRefs(w, refs, v);
      && w'.commitsError == w.commitsError + FailedCommits(w.cache, refs, v, v.isCommit)
      && w'.commitsNoBranchError == w.commitsNoBranchError + FailedCommits(w.cache, refs, v, v.isCommitHasABranch)
    decreases |refs|
  {
    if refs != [] {
      var p, r := refs[..|refs| - 1], refs[|refs| - 1];
      CommitCells(w, p, v);
      CommitCellsLast(w, refs, v);
      var e := FailedCommits(w.cache, refs, v, v.isCommit)[|FailedCommits(w.cache, p, v, v.isCommit)|..];
      var n := FailedCommits(w.cache, refs, v, v.isCommitHasABranch)[|FailedCommits(w.cache, p, v, v.isCommitHasABranch)|..];
      assert w.commitsError + FailedCommits(w.cache, p, v, v.isCommit) + e
             == w.commitsError + (FailedCommits(w.cache, p, v, v.isCommit) + e);
      assert w.commitsNoBranchError + FailedCommits(w.cache, p, v, v.isCommitHasABranch) + n
             == w.commitsNoBranchError + (FailedCommits(w.cache, p, v, v.isCommitHasABranch) + n);
    }
  }

  /** A commit referenced twice, from an accepted repository, whose existence
      check fails is listed twice in the commit-error cell. */
  lemma CommitErrorsRepeat(w: Walk, r: Ref, v: Verifier)
    requires Accepted(w.cache, v, r.commit.repository)
    requires v.isCommit(Normalize(r.commit.repository), r.commit.id).Failure?
    ensures WalkRefs(w, [r, r], v).commitsError == w.commitsError + r.commit.id + "," + r.commit.id + ","
  {
    assert [] + [r] == [r] && [r] + [r] == [r, r];
    var w1 := CheckRef(w, r, v);
    RepositoryAcceptedRunsChecks(w, r, v);
    RepositoryAcceptedRunsChecks(w1, r, v);
    WalkRefsSnoc(w, [], r, v);
    WalkRefsSnoc(w, [r], r, v);
  }

  // ----- The error log -----

  /** The existence check of `r` runs and fails. */
  ghost predicate CommitFails(cache: map<string, HttpCode>, v: Verifier, r: Ref) {
    && Accepted(cache, v, r.commit.repository)
    && v.isCommit(Normalize(r.commit.repository), r.commit.id).Failure?
  }

  /** The reachability check of `r` runs and fails. */
  ghost predicate ReachFails(cache: map<string, HttpCode>, v: Verifier, r: Ref) {
    && Accepted(cache, v, r.commit.repository)
    && v.isCommitHasABranch(Normalize(r.commit.repository), r.commit.id).Failure?
  }

  /** Reference `k` is the first, in loop order, whose branch check runs and
      fails for its branch id, and the id did not fail before the walk: the
      only reference whose branch message is logged for that id. */
  ghost predicate FirstBranchFailure(w: Walk, refs: seq<Ref>, v: Verifier, k: int) {
    && 0 <= k < |refs|
    && refs[k].branchId !in w.branchErrors
    && BranchFails(w.cache, v, refs[k])
    && forall j :: 0 <= j < k ==> !(refs[j].branchId == refs[k].branchId && BranchFails(w.cache, v, refs[j]))
  }

  /** The code logged for a raw URL that is cached as failing or fails now:
      the cached one if any, else the code of the failed check. */
  function RepositoryCode(cache: map<string, HttpCode>, v: Verifier, url: string): HttpCode
    requires url in cache || RepositoryFails(v, url)
  {
    if url in cache then cache[url] else v.isRepository(Normalize(url)).httpCode
  }

  function CommitLine(v: Verifier, r: Ref): string
    requires v.isCommit(Normalize(r.commit.repository), r.commit.id).Failure?
  {
    NotFoundMessage(r.commit.id, v.isCommit(Normalize(r.commit.repository), r.commit.id).httpCode)
  }

  function ReachLine(v: Verifier, r: Ref): string
    requires v.isCommitHasABranch(Normalize(r.commit.repository), r.commit.id).Failure?
  {
    v.isCommitHasABranch(Normalize(r.commit.repository), r.commit.id).body
  }

  function BranchLine(v: Verifier, r: Ref): string
    requires v.isBranch(Normalize(r.commit.repository), r.branchId).Failure?
  {
    BranchMessage(r.branchId, v.isBranch(Normalize(r.commit.repository), r.branchId).httpCode)
  }

  /** A line the walk over `refs` from `w` logs: one it held already, the
      not-found line of a referenced URL cached as failing or failing now,
      the not-found line or the reachability body of an accepted reference
      whose check fails, or the branch message of the first reference whose
      branch check fails for its id. */
  ghost predicate LoggedBy(w: Walk, refs: seq<Ref>, v: Verifier, m: string) {
    || m in w.errorLog
    || (exists url :: url in Urls(refs) && (url in w.cache || RepositoryFails(v, url))
                      && m == NotFoundMessage(url, RepositoryCode(w.cache, v, url)))
    || (exists r :: r in refs && CommitFails(w.cache, v, r) && m == CommitLine(v, r))
    || (exists r :: r in refs && ReachFails(w.cache, v, r) && m == ReachLine(v, r))
    || (exists k :: FirstBranchFailure(w, refs, v, k) && m == BranchLine(v, refs[k]))
  }

  lemma FirstBranchFailureLast(w: Walk, refs: seq<Ref>, v: Verifier, k: int)
    requires refs != [] && 0 <= k < |refs| - 1
    ensures FirstBranchFailure(w, refs[..|refs| - 1], v, k) == FirstBranchFailure(w, refs, v, k)
  {
    var p := refs[..|refs| - 1];
    assert forall j :: 0 <= j <= k ==> p[j] == refs[j];
  }

  /** A line logged by a prefix of the references is logged by all of them. */
  lemma LoggedByPrefix(w: Walk, refs: seq<Ref>, v: Verifier, m: string)
    requires refs != [] && LoggedBy(w, refs[..|refs| - 1], v, m)
    ensures LoggedBy(w, refs, v, m)
  {
    var p := refs[..|refs| - 1];
    UrlsLast(refs);
    MembersLast(refs);
    if k :| FirstBranchFailure(w, p, v, k) && m == BranchLine(v, p[k]) {
      FirstBranchFailureLast(w, refs, v, k);
    }
  }

  /** The code a walk caches for a referenced URL is `RepositoryCode`. */
  lemma CachedCode(w: Walk, refs: seq<Ref>, v: Verifier, url: string)
    requires url in WalkRefs(w, refs, v).cache
    ensures url in w.cache || RepositoryFails(v, url)
    ensures WalkRefs(w, refs, v).cache[url] == RepositoryCode(w.cache, v, url)
  {
    CacheExact(w, refs, v);
  }

  /** The last reference's branch message is logged exactly when it is the
      first failure for its id. */
  lemma BranchAskedIsFirst(w: Walk, refs: seq<Ref>, v: Verifier)
    requires refs != []
    ensures var p, r := refs[..|refs| - 1], refs[|refs| - 1];
      var wp := WalkRefs(w, p, v);
      FirstBranchFailure(w, refs, v, |refs| - 1) <==>
        (&& Accepted(w.cache, v, r.commit.repository)
         && r.branchId != DefaultBranch && r.branchId !in wp.branchErrors
         && v.isBranch(Normalize(r.commit.repository), r.branchId).Failure?)
  {
    var p, r := refs[..|refs| - 1], refs[|refs| - 1];
    BranchErrorsExact(w, p, v);
    var wp := WalkRefs(w, p, v);
    if r.branchId in wp.branchErrors && r.branchId !in w.branchErrors {
      var r0 :| r0 in p && r0.branchId == r.branchId && BranchFails(w.cache, v, r0);
      var j :| 0 <= j < |p| && p[j] == r0;
      assert refs[j] == r0;
    }
  }

  /** A line an accepted reference adds to the log is its branch message,
      its not-found line or its reachability body, each only when that check
      runs and fails. */
  lemma AcceptedNewLine(w: Walk, r: Ref, v: Verifier, m: string)
    requires r.commit.repository !in w.cache && !RepositoryFails(v, r.commit.repository)
    requires m in CheckRef(w, r, v).errorLog && m !in w.errorLog
    ensures var repo := Normalize(r.commit.repository);
      || (&& r.branchId != DefaultBranch && r.branchId !in w.branchErrors
          && v.isBranch(repo, r.branchId).Failure? && m == BranchLine(v, r))
      || (v.isCommit(repo, r.commit.id).Failure? && m == CommitLine(v, r))
      || (v.isCommitHasABranch(repo, r.commit.id).Failure? && m == ReachLine(v, r))
  {
    RepositoryAcceptedRunsChecks(w, r, v);
  }

  /** Every line the walk logs is one `LoggedBy` describes. */
  lemma {:induction false} ErrorLogSound(w: Walk, refs: seq<Ref>, v: Verifier)
    ensures forall m :: m in WalkRefs(w, refs, v).errorLog ==> LoggedBy(w, refs, v, m)
    decreases |refs|
  {
    if refs != [] {
      var p, r := refs[..|refs| - 1], refs[|refs| - 1];
      ErrorLogSound(w, p, v);
      var wp := WalkRefs(w, p, v);
      if r.commit.repository in wp.cache || RepositoryFails(v, r.commit.repository) {
        FailureLineSound(w, refs, v);
      } else {
        AcceptedLinesSound(w, refs, v);
      }
    }
  }

  lemma FailureLineSound(w: Walk, refs: seq<Ref>, v: Verifier)
    requires refs != []
    requires var p, r := refs[..|refs| - 1], refs[|refs| - 1];
      var wp := WalkRefs(w, p, v);
      && (r.commit.repository in wp.cache || RepositoryFails(v, r.commit.repository))
      && forall m :: m in wp.errorLog ==> LoggedBy(w, p, v, m)
    ensures forall m :: m in WalkRefs(w, refs, v).errorLog ==> LoggedBy(w, refs, v, m)
  {
    var p, r := refs[..|refs| - 1], refs[|refs| - 1];
    var url := r.commit.repository;
    var wp, w' := WalkRefs(w, p, v), WalkRefs(w, refs, v);
    assert url in Urls(refs) by { UrlsLast(refs); }
    assert w'.errorLog == Insert(wp.errorLog, NotFoundMessage(url, w'.cache[url])) by {
      RepositoryFailureShortCircuits(wp, r, v);
    }
    CachedCode(w, refs, v, url);
    forall m | m in w'.errorLog ensures LoggedBy(w, refs, v, m) {
      if m in wp.errorLog {
        LoggedByPrefix(w, refs, v, m);
      }
    }
  }

  lemma AcceptedLinesSound(w: Walk, refs: seq<Ref>, v: Verifier)
    requires refs != []
    requires var p, r := refs[..|refs| - 1], refs[|refs| - 1];
      var wp := WalkRefs(w, p, v);
      && r.commit.repository !in wp.cache && !RepositoryFails(v, r.commit.repository)
      && forall m :: m in wp.errorLog ==> LoggedBy(w, p, v, m)
    ensures forall m :: m in WalkRefs(w, refs, v).errorLog ==> LoggedBy(w, refs, v, m)
  {
    var p, r := refs[..|refs| - 1], refs[|refs| - 1];
    var wp, w' := WalkRefs(w, p, v), WalkRefs(w, refs, v);
    assert r in refs by { MembersLast(refs); }
    AcceptedAgainstStart(w, p, r, v);
    BranchAskedIsFirst(w, refs, v);
    forall m | m in w'.errorLog ensures LoggedBy(w, refs, v, m) {
      if m in wp.errorLog {
        LoggedByPrefix(w, refs, v, m);
      } else {
        AcceptedNewLine(wp, r, v, m);
      }
    }
  }

  /** Every line `LoggedBy` describes is in the walk's log. */
  lemma {:induction false} ErrorLogComplete(w: Walk, refs: seq<Ref>, v: Verifier)
    ensures forall m :: LoggedBy(w, refs, v, m) ==> m in WalkRefs(w, refs, v).errorLog
    decreases |refs|
  {
    if refs != [] {
      var p, r := refs[..|refs| - 1], refs[|refs| - 1];
      var url := r.commit.repository;
      ErrorLogComplete(w, p, v);
      var wp := WalkRefs(w, p, v);
      var w' := WalkRefs(w, refs, v);
      AcceptedAgainstStart(w, p, r, v);
      BranchAskedIsFirst(w, refs, v);
      if url in wp.cache || RepositoryFails(v, url) {
        RepositoryFailureShortCircuits(wp, r, v);
        CachedCode(w, refs, v, url);
      } else {
        RepositoryAcceptedRunsChecks(wp, r, v);
      }
      assert forall m :: m in wp.errorLog ==> m in w'.errorLog;
      forall m | LoggedBy(w, refs, v, m) ensures m in w'.errorLog {
        LoggedByLast(w, refs, v, m);
      }
    }
  }

  /** A line logged by all the references is logged by the prefix, or is the
      last reference's own line. */
  lemma LoggedByLast(w: Walk, refs: seq<Ref>, v: Verifier, m: string)
    requires refs != [] && LoggedBy(w, refs, v, m)
    ensures var p, r := refs[..|refs| - 1], refs[|refs| - 1];
      var url := r.commit.repository;
      || LoggedBy(w, p, v, m)
      || ((url in w.cache || RepositoryFails(v, url)) && m == NotFoundMessage(url, RepositoryCode(w.cache, v, url)))
      || (CommitFails(w.cache, v, r) && m == CommitLine(v, r))
      || (ReachFails(w.cache, v, r) && m == ReachLine(v, r))
      || (FirstBranchFailure(w, refs, v, |refs| - 1) && m == BranchLine(v, r))
  {
    var p := refs[..|refs| - 1];
    UrlsLast(refs);
    MembersLast(refs);
    if k :| FirstBranchFailure(w, refs, v, k) && m == BranchLine(v, refs[k]) {
      if k < |refs| - 1 {
        FirstBranchFailureLast(w, refs, v, k);
      }
    }
  }

  /** Every branch id that becomes a branch error has a first failing
      reference, whose branch message is the one logged for it. */
  lemma {:induction false} BranchErrorLogged(w: Walk, refs: seq<Ref>, v: Verifier)
    ensures forall b :: b in WalkRefs(w, refs, v).branchErrors && b !in w.branchErrors ==>
      exists k :: FirstBranchFailure(w, refs, v, k) && refs[k].branchId == b
    decreases |refs|
  {
    if refs != [] {
      var p, r := refs[..|refs| - 1], refs[|refs| - 1];
      BranchErrorLogged(w, p, v);
      var wp, w' := WalkRefs(w, p, v), WalkRefs(w, refs, v);
      AcceptedAgainstStart(w, p, r, v);
      BranchAskedIsFirst(w, refs, v);
      if r.commit.repository in wp.cache || RepositoryFails(v, r.commit.repository) {
        RepositoryFailureShortCircuits(wp, r, v);
      } else {
        RepositoryAcceptedRunsChecks(wp, r, v);
      }
      forall b | b in w'.branchErrors && b !in w.branchErrors
        ensures exists k :: FirstBranchFailure(w, refs, v, k) && refs[k].branchId == b
      {
        if b in wp.branchErrors {
          var k :| FirstBranchFailure(w, p, v, k) && p[k].branchId == b;
          FirstBranchFailureLast(w, refs, v, k);
          assert refs[k] == p[k];
        } else {
          assert FirstBranchFailure(w, refs, v, |refs| - 1) && refs[|refs| - 1].branchId == b;
        }
      }
    }
  }

  /** The flag agrees with the log and with the error cells. */
  ghost predicate FlagConsistent(w: Walk) {
    && (w.isError <==> w.errorLog != [])
    && (w.isError <==> (w.repositoryErrors != [] || w.branchErrors != []
                        || w.commitsError != "" || w.commitsNoBranchError != ""))
  }

  lemma FlagStep(w: Walk, r: Ref, v: Verifier)
    requires FlagConsistent(w)
    ensures FlagConsistent(CheckRef(w, r, v))
  {
    if r.commit.repository in w.cache || RepositoryFails(v, r.commit.repository) {
      RepositoryFailureShortCircuits(w, r, v);
    } else {
      var repo, id := Normalize(r.commit.repository), r.commit.id;
      var w0 := w.(queries := w.queries + [RepositoryQuery(repo)]);
      var w1 := CheckBranch(w0, r.branchId, repo, v);
      var w2 := CheckCommit(w1, id, repo, v);
      BranchKeepsFlag(w0, r.branchId, repo, v);
      CommitKeepsFlag(w1, id, repo, v);
      ReachKeepsFlag(w2, id, repo, v);
      assert CheckRef(w, r, v) == CheckReach(w2, id, repo, v);
    }
  }

  lemma BranchKeepsFlag(w: Walk, branch: string, repo: string, v: Verifier)
    requires FlagConsistent(w)
    ensures FlagConsistent(CheckBranch(w, branch, repo, v))
  {
  }

  lemma CommitKeepsFlag(w: Walk, id: string, repo: string, v: Verifier)
    requires FlagConsistent(w)
    ensures FlagConsistent(CheckCommit(w, id, repo, v))
  {
  }

  lemma ReachKeepsFlag(w: Walk, id: string, repo: string, v: Verifier)
    requires FlagConsistent(w)
    ensures FlagConsistent(CheckReach(w, id, repo, v))
  {
  }

  /** `isError` is set exactly when a line goes into the error log, and
      exactly when some error cell gets an entry. */
  lemma {:induction false} ErrorFlagConsistent(w: Walk, refs: seq<Ref>, v: Verifier)
    requires FlagConsistent(w)
    ensures FlagConsistent(WalkRefs(w, refs, v))
    decreases |refs|
  {
    if refs != [] {
      var p := refs[..|refs| - 1];
      ErrorFlagConsistent(w, p, v);
      FlagStep(WalkRefs(w, p, v), refs[|refs| - 1], v);
    }
  }

  ghost predicate KeySetsWellFormed(w: Walk) {
    && Distinct(w.errorLog)
    && Distinct(w.repositoryErrors)
    && Distinct(w.branchErrors)
    && DefaultBranch !in w.branchErrors
  }

  lemma WellFormedStep(w: Walk, r: Ref, v: Verifier)
    requires KeySetsWellFormed(w)
    ensures KeySetsWellFormed(CheckRef(w, r, v))
    ensures forall b :: b in CheckRef(w, r, v).branchErrors ==> b in w.branchErrors || b == r.branchId
  {
    if r.commit.repository in w.cache || RepositoryFails(v, r.commit.repository) {
      RepositoryFailureShortCircuits(w, r, v);
    } else {
      var repo, id := Normalize(r.commit.repository), r.commit.id;
      var w0 := w.(queries := w.queries + [RepositoryQuery(repo)]);
      var w1 := CheckBranch(w0, r.branchId, repo, v);
      var w2 := CheckCommit(w1, id, repo, v);
      BranchKeepsKeySets(w0, r.branchId, repo, v);
      CommitKeepsKeySets(w1, id, repo, v);
      ReachKeepsKeySets(w2, id, repo, v);
      assert CheckRef(w, r, v) == CheckReach(w2, id, repo, v);
    }
  }

  lemma BranchKeepsKeySets(w: Walk, branch: string, repo: string, v: Verifier)
    requires KeySetsWellFormed(w)
    ensures KeySetsWellFormed(CheckBranch(w, branch, repo, v))
    ensures forall b :: b in CheckBranch(w, branch, repo, v).branchErrors ==> b in w.branchErrors || b == branch
  {
  }

  lemma CommitKeepsKeySets(w: Walk, id: string, repo: string, v: Verifier)
    requires KeySetsWellFormed(w)
    ensures KeySetsWellFormed(CheckCommit(w, id, repo, v))
    ensures CheckCommit(w, id, repo, v).branchErrors == w.branchErrors
  {
  }

  lemma ReachKeepsKeySets(w: Walk, id: string, repo: string, v: Verifier)
    requires KeySetsWellFormed(w)
    ensures KeySetsWellFormed(CheckReach(w, id, repo, v))
    ensures CheckReach(w, id, repo, v).branchErrors == w.branchErrors
  {
  }

  /** No key set ever holds a key twice; the default branch is never a
      branch error; every new branch error is the branch id of some fix. */
  lemma {:induction false} KeySetsStayWellFormed(w: Walk, refs: seq<Ref>, v: Verifier)
    requires KeySetsWellFormed(w)
    ensures KeySetsWellFormed(WalkRefs(w, refs, v))
    ensures forall b :: b in WalkRefs(w, refs, v).branchErrors ==> b in w.branchErrors || b in BranchIds(refs)
    decreases |refs|
  {
    if refs != [] {
      var p, r := refs[..|refs| - 1], refs[|refs| - 1];
      KeySetsStayWellFormed(w, p, v);
      UrlsLast(refs);
      var wp, w' := WalkRefs(w, p, v), WalkRefs(w, refs, v);
      assert w' == CheckRef(wp, r, v);
      WellFormedStep(wp, r, v);
      forall b | b in w'.branchErrors
        ensures b in w.branchErrors || b in BranchIds(refs)
      {
        if b !in wp.branchErrors {
          assert b == r.branchId;
        }
      }
    }
  }

  /** `w` continues from `base`: it has made the calls `base` had made and
      more, holds every branch error `base` held, and none of its later
      calls is a branch check of the default branch or of a branch that had
      failed in `base`. */
  ghost predicate Extends(w: Walk, base: Walk) {
    && |base.queries| <= |w.queries| && w.queries[..|base.queries|] == base.queries
    && (forall b :: b in base.branchErrors ==> b in w.branchErrors)
    && forall i :: |base.queries| <= i < |w.queries| && w.queries[i].BranchQuery? ==>
         w.queries[i].branch != DefaultBranch && w.queries[i].branch !in base.branchErrors
  }

  /** Appending one call that is not a forbidden branch check, and perhaps
      adding branch errors, keeps `Extends`. */
  lemma ExtendsByQuery(w: Walk, base: Walk, q: Query, w': Walk)
    requires Extends(w, base)
    requires q.BranchQuery? ==> q.branch != DefaultBranch && q.branch !in base.branchErrors
    requires w'.queries == w.queries + [q]
    requires forall b :: b in w.branchErrors ==> b in w'.branchErrors
    ensures Extends(w', base)
  {
    assert w'.queries[..|w.queries|] == w.queries;
    assert w'.queries[..|base.queries|] == w.queries[..|base.queries|];
  }

  lemma ExtendsStep(w: Walk, base: Walk, r: Ref, v: Verifier)
    requires Extends(w, base)
    ensures Extends(CheckRef(w, r, v), base)
  {
    var repo, id := Normalize(r.commit.repository), r.commit.id;
    var w0 := w.(queries := w.queries + [RepositoryQuery(repo)]);
    ExtendsByQuery(w, base, RepositoryQuery(repo), w0);
    if r.commit.repository !in w.cache && !RepositoryFails(v, r.commit.repository) {
      var w1 := CheckBranch(w0, r.branchId, repo, v);
      ExtendsByBranch(w0, base, r.branchId, repo, v);
      var w2 := CheckCommit(w1, id, repo, v);
      ExtendsByQuery(w1, base, CommitQuery(repo, id), w2);
      var w3 := CheckReach(w2, id, repo, v);
      ExtendsByQuery(w2, base, ReachQuery(repo, id), w3);
      assert CheckRef(w, r, v) == w3;
    } else {
      assert CheckRef(w, r, v).queries == w0.queries;
    }
  }

  lemma ExtendsByBranch(w: Walk, base: Walk, branch: string, repo: string, v: Verifier)
    requires Extends(w, base)
    ensures Extends(CheckBranch(w, branch, repo, v), base)
  {
    if branch != DefaultBranch && branch !in w.branchErrors {
      ExtendsByQuery(w, base, BranchQuery(repo, branch), CheckBranch(w, branch, repo, v));
    }
  }

  /** Calls are only appended; branch errors are only added; and no branch
      check is made for the default branch or for a branch that had already
      failed when the references started. */
  lemma {:induction false} BranchChecksSkipped(w: Walk, refs: seq<Ref>, v: Verifier)
    ensures Extends(WalkRefs(w, refs, v), w)
    decreases |refs|
  {
    if refs == [] {
      assert w.queries[..|w.queries|] == w.queries;
    } else {
      var p := refs[..|refs| - 1];
      BranchChecksSkipped(w, p, v);
      ExtendsStep(WalkRefs(w, p, v), w, refs[|refs| - 1], v);
    }
  }

  /** A branch that failed is not asked about again later in the statement. */
  lemma FailedBranchNotAskedAgain(w: Walk, before: seq<Ref>, after: seq<Ref>, v: Verifier, b: string)
    requires b in WalkRefs(w, before, v).branchErrors
    ensures var mid, end := WalkRefs(w, before, v), WalkRefs(w, before + after, v);
      && |mid.queries| <= |end.queries|
      && forall i :: |mid.queries| <= i < |end.queries| && end.queries[i].BranchQuery? ==>
           end.queries[i].branch != b
  {
    WalkRefsAppend(w, before, after, v);
    BranchChecksSkipped(WalkRefs(w, before, v), after, v);
  }

  function RepositoryQueryCount(qs: seq<Query>): nat {
    if qs == [] then 0
    else RepositoryQueryCount(qs[..|qs| - 1]) + (if qs[|qs| - 1].RepositoryQuery? then 1 else 0)
  }

  lemma CountSnoc(qs: seq<Query>, q: Query)
    ensures RepositoryQueryCount(qs + [q]) == RepositoryQueryCount(qs) + (if q.RepositoryQuery? then 1 else 0)
  {
    assert (qs + [q])[..|qs|] == qs;
  }

  lemma CountBranch(w: Walk, branch: string, repo: string, v: Verifier)
    ensures RepositoryQueryCount(CheckBranch(w, branch, repo, v).queries) == RepositoryQueryCount(w.queries)
  {
    if branch != DefaultBranch && branch !in w.branchErrors {
      CountSnoc(w.queries, BranchQuery(repo, branch));
    }
  }

  lemma CountCommit(w: Walk, id: string, repo: string, v: Verifier)
    ensures RepositoryQueryCount(CheckCommit(w, id, repo, v).queries) == RepositoryQueryCount(w.queries)
  {
    CountSnoc(w.queries, CommitQuery(repo, id));
  }

  lemma CountReach(w: Walk, id: string, repo: string, v: Verifier)
    ensures RepositoryQueryCount(CheckReach(w, id, repo, v).queries) == RepositoryQueryCount(w.queries)
  {
    CountSnoc(w.queries, ReachQuery(repo, id));
  }

  lemma CountStep(w: Walk, r: Ref, v: Verifier)
    ensures RepositoryQueryCount(CheckRef(w, r, v).queries) == RepositoryQueryCount(w.queries) + 1
  {
    var repo, id := Normalize(r.commit.repository), r.commit.id;
    var w0 := w.(queries := w.queries + [RepositoryQuery(repo)]);
    CountSnoc(w.queries, RepositoryQuery(repo));
    if r.commit.repository !in w.cache && !RepositoryFails(v, r.commit.repository) {
      var w1 := CheckBranch(w0, r.branchId, repo, v);
      CountBranch(w0, r.branchId, repo, v);
      var w2 := CheckCommit(w1, id, repo, v);
      CountCommit(w1, id, repo, v);
      CountReach(w2, id, repo, v);
      assert CheckRef(w, r, v) == CheckReach(w2, id, repo, v);
    } else {
      assert CheckRef(w, r, v).queries == w0.queries;
    }
  }

  /** The repository check is asked once per reference, cached or not, so a
      raw URL referenced twice is asked about twice. */
  lemma {:induction false} EveryReferenceAsksRepository(w: Walk, refs: seq<Ref>, v: Verifier)
    ensures RepositoryQueryCount(WalkRefs(w, refs, v).queries) == RepositoryQueryCount(w.queries) + |refs|
    decreases |refs|
  {
    if refs != [] {
      var p := refs[..|refs| - 1];
      EveryReferenceAsksRepository(w, p, v);
      CountStep(WalkRefs(w, p, v), refs[|refs| - 1], v);
    }
  }
}
