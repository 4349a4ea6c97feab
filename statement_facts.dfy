/** Properties of one statement's validation and of a whole run, stated on
    the report row, the verdict and the run-wide repository cache. */
module StatementFacts {
  import opened Resolver
  import opened KeySets
  import opened Engine
  import opened EngineFacts

  /** Some commit of some fix names `url` as its repository. */
  ghost predicate Referenced(fixes: seq<Fix>, url: string) {
    exists i, k :: 0 <= i < |fixes| && 0 <= k < |fixes[i].commits| && fixes[i].commits[k].repository == url
  }

  lemma {:induction false} ReferencedUrls(fixes: seq<Fix>)
    ensures forall url :: url in Urls(Refs(fixes)) <==> Referenced(fixes, url)
    decreases |fixes|
  {
    if fixes != [] {
      var p, f := fixes[..|fixes| - 1], fixes[|fixes| - 1];
      ReferencedUrls(p);
      forall url ensures url in Urls(Refs(fixes)) <==> Referenced(fixes, url) {
        ReferencedSnoc(fixes, url);
      }
    }
  }

  /** One step of `ReferencedUrls`: the last fix's commits are the new
      references. */
  lemma ReferencedSnoc(fixes: seq<Fix>, url: string)
    requires fixes != []
    requires var p := fixes[..|fixes| - 1];
      url in Urls(Refs(p)) <==> Referenced(p, url)
    ensures url in Urls(Refs(fixes)) <==> Referenced(fixes, url)
  {
    var p, f := fixes[..|fixes| - 1], fixes[|fixes| - 1];
    var refs := Refs(fixes);
    assert refs == Refs(p) + FixRefs(f);
    if url in Urls(refs) {
      var r :| r in refs && r.commit.repository == url;
      if r in Refs(p) {
        assert url in Urls(Refs(p));
        var i, k :| 0 <= i < |p| && 0 <= k < |p[i].commits| && p[i].commits[k].repository == url;
        assert fixes[i] == p[i];
      } else {
        var k :| 0 <= k < |FixRefs(f)| && FixRefs(f)[k] == r;
        assert fixes[|fixes| - 1].commits[k].repository == url;
      }
    }
    if Referenced(fixes, url) {
      var i, k :| 0 <= i < |fixes| && 0 <= k < |fixes[i].commits| && fixes[i].commits[k].repository == url;
      if i < |p| {
        assert p[i] == fixes[i];
        assert url in Urls(Refs(p));
        var r :| r in Refs(p) && r.commit.repository == url;
        assert r in refs;
      } else {
        assert FixRefs(f)[k] in refs;
      }
    }
  }

  /** A statement's repository-error keys are exactly the raw URLs it
      references that were cached as failing before it or whose repository
      check fails now. */
  lemma StatementRepositoryErrors(cache: map<string, HttpCode>, s: Statement, v: Verifier)
    ensures forall url :: url in StatementWalk(cache, s, v).repositoryErrors <==>
      Referenced(s.fixes, url) && (url in cache || RepositoryFails(v, url))
  {
    var refs := Refs(s.fixes);
    CacheExact(Initial(cache), refs, v);
    RepositoryErrorsExact(Initial(cache), refs, v);
    ReferencedUrls(s.fixes);
  }

  /** The run-wide cache after a statement: the URLs cached before with their
      codes, plus every URL the statement references whose repository check
      fails, with the code of that failure. */
  lemma StatementCache(cache: map<string, HttpCode>, s: Statement, v: Verifier, purlOk: string -> bool)
    ensures var c := Validate(cache, s, v, purlOk).cache;
      && (forall url :: url in c <==> url in cache || (Referenced(s.fixes, url) && RepositoryFails(v, url)))
      && (forall url :: url in cache ==> url in c && c[url] == cache[url])
      && (forall url :: url in c && url !in cache ==> c[url] == v.isRepository(Normalize(url)).httpCode)
  {
    CacheExact(Initial(cache), Refs(s.fixes), v);
    ReferencedUrls(s.fixes);
  }

  /** The commit cells of the row list, for the references whose raw URL was
      not cached and whose repository check succeeds, the commit ids whose
      existence check (first cell) or reachability check (second cell)
      fails. */
  lemma StatementCommitCells(cache: map<string, HttpCode>, s: Statement, v: Verifier, purlOk: string -> bool)
    ensures var a := Validate(cache, s, v, purlOk).analysis;
      && a.commitsError == FailedCommits(cache, Refs(s.fixes), v, v.isCommit)
      && a.commitsNoBranchError == FailedCommits(cache, Refs(s.fixes), v, v.isCommitHasABranch)
  {
    CommitCells(Initial(cache), Refs(s.fixes), v);
  }

  /** A statement fails exactly when its error log is not empty or an
      artifact id is rejected, and exactly when one of its error cells is not
      empty or an artifact id is rejected. */
  lemma VerdictMeansError(cache: map<string, HttpCode>, s: Statement, v: Verifier, purlOk: string -> bool)
    ensures var o := Validate(cache, s, v, purlOk);
      && (o.isError <==> o.analysis.errorLog != "" || SomePurlFails(s.artifacts, purlOk))
      && (o.isError <==> (o.analysis.repositoryError != "" || o.analysis.branchError != ""
                          || o.analysis.commitsError != "" || o.analysis.commitsNoBranchError != ""
                          || SomePurlFails(s.artifacts, purlOk)))
  {
    ErrorFlagConsistent(Initial(cache), Refs(s.fixes), v);
  }

  /** `r` is the `k`-th commit of the `i`-th fix, with that fix's branch id. */
  ghost predicate InFixes(fixes: seq<Fix>, r: Ref) {
    exists i, k :: 0 <= i < |fixes| && 0 <= k < |fixes[i].commits|
      && r == Ref(fixes[i].branchId, fixes[i].commits[k])
  }

  /** The references the loops visit are exactly the commits of the fixes,
      each with its fix's branch id. */
  lemma {:induction false} RefsMembers(fixes: seq<Fix>)
    ensures forall r :: r in Refs(fixes) <==> InFixes(fixes, r)
    decreases |fixes|
  {
    if fixes != [] {
      RefsMembers(fixes[..|fixes| - 1]);
      forall r ensures r in Refs(fixes) <==> InFixes(fixes, r) {
        RefsMembersSnoc(fixes, r);
      }
    }
  }

  lemma RefsMembersSnoc(fixes: seq<Fix>, r: Ref)
    requires fixes != []
    requires var p := fixes[..|fixes| - 1];
      r in Refs(p) <==> InFixes(p, r)
    ensures r in Refs(fixes) <==> InFixes(fixes, r)
  {
    var p, f := fixes[..|fixes| - 1], fixes[|fixes| - 1];
    var refs := Refs(fixes);
    assert refs == Refs(p) + FixRefs(f);
    if r in refs {
      if r in Refs(p) {
        var i, k :| 0 <= i < |p| && 0 <= k < |p[i].commits| && r == Ref(p[i].branchId, p[i].commits[k]);
        assert fixes[i] == p[i];
      } else {
        var k :| 0 <= k < |FixRefs(f)| && FixRefs(f)[k] == r;
        assert r == Ref(fixes[|fixes| - 1].branchId, fixes[|fixes| - 1].commits[k]);
      }
    }
    if InFixes(fixes, r) {
      var i, k :| 0 <= i < |fixes| && 0 <= k < |fixes[i].commits| && r == Ref(fixes[i].branchId, fixes[i].commits[k]);
      if i < |p| {
        assert p[i] == fixes[i];
        assert InFixes(p, r);
      } else {
        assert FixRefs(f)[k] == r;
      }
    }
  }

  /** The branch-error cell lists exactly the branch ids of the statement's
      commit references whose branch check runs and fails, each once, and
      never the default branch. When no branch id holds a ',', the cell reads
      back as that list of distinct ids. */
  lemma BranchErrorCell(cache: map<string, HttpCode>, s: Statement, v: Verifier, purlOk: string -> bool)
    requires forall i :: 0 <= i < |s.fixes| ==> ',' !in s.fixes[i].branchId
    ensures var keys := Split(Validate(cache, s, v, purlOk).analysis.branchError);
      && Distinct(keys)
      && DefaultBranch !in keys
      && (forall b :: b in keys <==> exists r :: InFixes(s.fixes, r) && r.branchId == b && BranchFails(cache, v, r))
      && forall b :: b in keys ==> exists i :: 0 <= i < |s.fixes| && s.fixes[i].branchId == b
  {
    var refs := Refs(s.fixes);
    var w := StatementWalk(cache, s, v);
    KeySetsStayWellFormed(Initial(cache), refs, v);
    BranchErrorsExact(Initial(cache), refs, v);
    RefsMembers(s.fixes);
    ReferencedBranches(s.fixes);
    SplitFlatten(w.branchErrors);
  }

  /** The error-log cell lists, each once, exactly the lines the
      statement's references log (`LoggedBy` from an empty log); every
      branch id in the branch-error cell has there the branch message of the
      first reference whose branch check failed for it. */
  lemma ErrorLogCell(cache: map<string, HttpCode>, s: Statement, v: Verifier, purlOk: string -> bool)
    ensures var w, refs := StatementWalk(cache, s, v), Refs(s.fixes);
      && Validate(cache, s, v, purlOk).analysis.errorLog == Flatten(w.errorLog)
      && Distinct(w.errorLog)
      && (forall m :: m in w.errorLog <==> LoggedBy(Initial(cache), refs, v, m))
      && forall b :: b in w.branchErrors ==>
           exists k :: FirstBranchFailure(Initial(cache), refs, v, k) && refs[k].branchId == b
                       && BranchLine(v, refs[k]) in w.errorLog
  {
    var refs := Refs(s.fixes);
    var w := StatementWalk(cache, s, v);
    KeySetsStayWellFormed(Initial(cache), refs, v);
    ErrorLogSound(Initial(cache), refs, v);
    ErrorLogComplete(Initial(cache), refs, v);
    BranchErrorLogged(Initial(cache), refs, v);
    forall b | b in w.branchErrors
      ensures exists k :: FirstBranchFailure(Initial(cache), refs, v, k) && refs[k].branchId == b
                          && BranchLine(v, refs[k]) in w.errorLog
    {
      var k :| FirstBranchFailure(Initial(cache), refs, v, k) && refs[k].branchId == b;
      assert LoggedBy(Initial(cache), refs, v, BranchLine(v, refs[k]));
    }
  }

  /** A statement fails exactly when some check fails: a referenced
      repository is cached as failing or not found, a branch check runs and
      fails, a commit of an accepted reference is not found or is on no
      branch, or an artifact id is rejected. */
  lemma VerdictFromAnswers(cache: map<string, HttpCode>, s: Statement, v: Verifier, purlOk: string -> bool)
    ensures Validate(cache, s, v, purlOk).isError <==>
      || (exists url :: Referenced(s.fixes, url) && (url in cache || RepositoryFails(v, url)))
      || (exists r :: InFixes(s.fixes, r) && BranchFails(cache, v, r))
      || FailedCommits(cache, Refs(s.fixes), v, v.isCommit) != ""
      || FailedCommits(cache, Refs(s.fixes), v, v.isCommitHasABranch) != ""
      || SomePurlFails(s.artifacts, purlOk)
  {
    var refs := Refs(s.fixes);
    ErrorFlagConsistent(Initial(cache), refs, v);
    CommitCells(Initial(cache), refs, v);
    SomeRepositoryError(cache, s, v);
    SomeBranchError(cache, s, v);
  }

  lemma SomeRepositoryError(cache: map<string, HttpCode>, s: Statement, v: Verifier)
    ensures StatementWalk(cache, s, v).repositoryErrors != [] <==>
      exists url :: Referenced(s.fixes, url) && (url in cache || RepositoryFails(v, url))
  {
    var keys := StatementWalk(cache, s, v).repositoryErrors;
    StatementRepositoryErrors(cache, s, v);
    if keys != [] {
      assert keys[0] in keys;
    }
  }

  lemma SomeBranchError(cache: map<string, HttpCode>, s: Statement, v: Verifier)
    ensures StatementWalk(cache, s, v).branchErrors != [] <==>
      exists r :: InFixes(s.fixes, r) && BranchFails(cache, v, r)
  {
    var refs := Refs(s.fixes);
    var keys := StatementWalk(cache, s, v).branchErrors;
    BranchErrorsExact(Initial(cache), refs, v);
    RefsMembers(s.fixes);
    if keys != [] {
      assert keys[0] in keys;
      var r :| r in refs && r.branchId == keys[0] && BranchFails(cache, v, r);
      assert InFixes(s.fixes, r);
    }
    if exists r :: InFixes(s.fixes, r) && BranchFails(cache, v, r) {
      var r :| InFixes(s.fixes, r) && BranchFails(cache, v, r);
      assert r in refs;
      assert r.branchId in keys;
    }
  }

  lemma {:induction false} ReferencedBranches(fixes: seq<Fix>)
    ensures forall b :: b in BranchIds(Refs(fixes)) ==> exists i :: 0 <= i < |fixes| && fixes[i].branchId == b
    decreases |fixes|
  {
    if fixes != [] {
      var p, f := fixes[..|fixes| - 1], fixes[|fixes| - 1];
      ReferencedBranches(p);
      assert Refs(fixes) == Refs(p) + FixRefs(f);
      forall b | b in BranchIds(Refs(fixes))
        ensures exists i :: 0 <= i < |fixes| && fixes[i].branchId == b
      {
        var r :| r in Refs(fixes) && r.branchId == b;
        if r in Refs(p) {
          assert b in BranchIds(Refs(p));
          var i :| 0 <= i < |p| && p[i].branchId == b;
          assert fixes[i] == p[i];
        } else {
          assert fixes[|fixes| - 1].branchId == b;
        }
      }
    }
  }

  /** The hosting API is asked about the repository once per commit
      reference of the statement, even for a repository already asked about
      or cached as failing. */
  lemma RepositoryAskedPerReference(cache: map<string, HttpCode>, s: Statement, v: Verifier, purlOk: string -> bool)
    ensures RepositoryQueryCount(Validate(cache, s, v, purlOk).queries) == |Refs(s.fixes)|
  {
    EveryReferenceAsksRepository(Initial(cache), Refs(s.fixes), v);
  }

  /** A statement with no fixes and only accepted artifacts yields an empty
      row, passes, asks nothing and leaves the cache alone. */
  lemma CleanStatement(cache: map<string, HttpCode>, s: Statement, v: Verifier, purlOk: string -> bool)
    requires s.fixes == []
    requires forall i :: 0 <= i < |s.artifacts| ==> purlOk(s.artifacts[i].id)
    ensures var o := Validate(cache, s, v, purlOk);
      && o.analysis == Analysis(s.vulnerabilityId, "", "", "", "", "", "")
      && !o.isError && o.cache == cache && o.queries == []
  {
    AcceptedArtifactsLeaveNoText(s.artifacts, purlOk);
  }

  lemma {:induction false} AcceptedArtifactsLeaveNoText(artifacts: seq<Artifact>, purlOk: string -> bool)
    requires forall i :: 0 <= i < |artifacts| ==> purlOk(artifacts[i].id)
    ensures PurlErrors(artifacts, purlOk) == ""
    decreases |artifacts|
  {
    if artifacts != [] {
      AcceptedArtifactsLeaveNoText(artifacts[..|artifacts| - 1], purlOk);
    }
  }

  lemma PurlErrorsSnoc(xs: seq<Artifact>, x: Artifact, purlOk: string -> bool)
    ensures PurlErrors(xs + [x], purlOk) == PurlErrors(xs, purlOk) + (if purlOk(x.id) then "" else x.id)
  {
    assert (xs + [x])[..|xs|] == xs;
  }

  /** The package-URL cell of a list is the cells of its parts, concatenated. */
  lemma {:induction false} PurlErrorsAppend(a: seq<Artifact>, b: seq<Artifact>, purlOk: string -> bool)
    ensures PurlErrors(a + b, purlOk) == PurlErrors(a, purlOk) + PurlErrors(b, purlOk)
    decreases |b|
  {
    if b == [] {
      assert a + b == a;
    } else {
      var init, x := b[..|b| - 1], b[|b| - 1];
      assert a + b == (a + init) + [x];
      PurlErrorsSnoc(a + init, x, purlOk);
      PurlErrorsAppend(a, init, purlOk);
      assert b == init + [x];
      PurlErrorsSnoc(init, x, purlOk);
    }
  }

  /** An accepted artifact leaves no trace in the package-URL cell. */
  lemma AcceptedArtifactIgnored(a: seq<Artifact>, x: Artifact, b: seq<Artifact>, purlOk: string -> bool)
    requires purlOk(x.id)
    ensures PurlErrors(a + [x] + b, purlOk) == PurlErrors(a + b, purlOk)
  {
    PurlErrorsAppend(a + [x], b, purlOk);
    PurlErrorsAppend(a, [x], purlOk);
    PurlErrorsAppend(a, b, purlOk);
    assert [x][..0] == [];
  }

  /** With no separator between rejected ids, two different lists of
      rejected artifacts can give the same cell. */
  lemma PurlErrorsAmbiguous(x: string, y: string, z: string, purlOk: string -> bool)
    requires !purlOk(x + y) && !purlOk(z) && !purlOk(x) && !purlOk(y + z)
    ensures PurlErrors([Artifact(x + y), Artifact(z)], purlOk) == PurlErrors([Artifact(x), Artifact(y + z)], purlOk)
  {
    PurlErrorsAppend([Artifact(x + y)], [Artifact(z)], purlOk);
    PurlErrorsAppend([Artifact(x)], [Artifact(y + z)], purlOk);
    assert [Artifact(x + y)][..0] == [] && [Artifact(z)][..0] == [];
    assert [Artifact(x)][..0] == [] && [Artifact(y + z)][..0] == [];
  }

  /** Across a run, a code in the repository cache is never replaced and rows
      are only appended, at most one per statement. */
  lemma {:induction false} RunKeepsCacheAndRows(r: Report, statements: seq<Statement>, verifiers: seq<Verifier>,
                                                purlOk: string -> bool)
    requires |verifiers| == |statements|
    ensures var r' := RunStatements(r, statements, verifiers, purlOk);
      && (forall url :: url in r.cache ==> url in r'.cache && r'.cache[url] == r.cache[url])
      && |r.rows| <= |r'.rows| <= |r.rows| + |statements|
      && r'.rows[..|r.rows|] == r.rows
    decreases |statements|
  {
    if statements != [] {
      var n := |statements| - 1;
      var p, vp := statements[..n], verifiers[..n];
      RunKeepsCacheAndRows(r, p, vp, purlOk);
      var before := RunStatements(r, p, vp, purlOk);
      StatementCache(before.cache, statements[n], verifiers[n], purlOk);
      var r' := RunStatements(r, statements, verifiers, purlOk);
      assert r'.rows[..|before.rows|] == before.rows;
      assert r'.rows[..|r.rows|] == before.rows[..|r.rows|];
    }
  }

  /** The cache after statement `i` is kept, codes included, by the
      statements up to `j`. */
  lemma {:induction false} CacheKeptUntil(r: Report, statements: seq<Statement>, verifiers: seq<Verifier>,
                                          purlOk: string -> bool, i: nat, j: nat)
    requires |verifiers| == |statements| && i <= j <= |statements|
    ensures var ci := RunStatements(r, statements[..i], verifiers[..i], purlOk).cache;
      var cj := RunStatements(r, statements[..j], verifiers[..j], purlOk).cache;
      forall url :: url in ci ==> url in cj && cj[url] == ci[url]
    decreases j - i
  {
    if i < j {
      CacheKeptUntil(r, statements, verifiers, purlOk, i, j - 1);
      RunSnoc(r, statements, verifiers, purlOk, j - 1);
      var ci := RunStatements(r, statements[..i], verifiers[..i], purlOk).cache;
      var before := RunStatements(r, statements[..j - 1], verifiers[..j - 1], purlOk).cache;
      var cj := RunStatements(r, statements[..j], verifiers[..j], purlOk).cache;
      StatementCache(before, statements[j - 1], verifiers[j - 1], purlOk);
      assert cj == Validate(before, statements[j - 1], verifiers[j - 1], purlOk).cache;
      forall url | url in ci
        ensures url in cj && cj[url] == ci[url]
      {
        assert url in before && before[url] == ci[url];
      }
    }
  }

  /** Once a raw URL has failed in statement `i`, every later statement `j`
      that references it reports it as a repository error, fails and adds a
      row, whatever the hosting API answers for statement `j`. */
  lemma StickyRepositoryFailure(r: Report, statements: seq<Statement>, verifiers: seq<Verifier>,
                                purlOk: string -> bool, i: nat, j: nat, url: string)
    requires |verifiers| == |statements| && i < j < |statements|
    requires Referenced(statements[i].fixes, url) && RepositoryFails(verifiers[i], url)
    requires Referenced(statements[j].fixes, url)
    ensures var before := RunStatements(r, statements[..j], verifiers[..j], purlOk);
      var o := Validate(before.cache, statements[j], verifiers[j], purlOk);
      && url in StatementWalk(before.cache, statements[j], verifiers[j]).repositoryErrors
      && o.isError
      && RunStatements(r, statements[..j + 1], verifiers[..j + 1], purlOk).rows == before.rows + [o.analysis]
  {
    var atI := RunStatements(r, statements[..i], verifiers[..i], purlOk);
    RunSnoc(r, statements, verifiers, purlOk, i);
    StatementCache(atI.cache, statements[i], verifiers[i], purlOk);
    CacheKeptUntil(r, statements, verifiers, purlOk, i + 1, j);
    var before := RunStatements(r, statements[..j], verifiers[..j], purlOk);
    StatementRepositoryErrors(before.cache, statements[j], verifiers[j]);
    ErrorFlagConsistent(Initial(before.cache), Refs(statements[j].fixes), verifiers[j]);
    RunSnoc(r, statements, verifiers, purlOk, j);
  }
}
