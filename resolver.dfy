/** The reference resolver: turns the raw `repository` string of a commit
    reference into the repository path that the hosting API is asked about
    (index.js, lines 56-64). */
module Resolver {
  import opened Text

  /** The web origin removed from a raw repository URL. */
  const Host := "https://github.com"

  /** The path asked about for a raw repository string. When the string ends
      with ".git", the first occurrence of the host and then the first
      occurrence of ".git" (which need not be the final one) are removed;
      otherwise the first occurrence of the host is removed and then one
      trailing '/' if there is one. */
  function Normalize(raw: string): (repo: string)
    ensures |repo| <= |raw|
    ensures !Contains(raw, Host) && !EndsWith(raw, ".git") && !EndsWith(raw, "/") ==> repo == raw
  {
    if EndsWith(raw, ".git") then
      ReplaceFirst(ReplaceFirst(raw, Host, ""), ".git", "")
    else
      var repo := ReplaceFirst(raw, Host, "");
      if EndsWith(repo, "/") then repo[..|repo| - 1] else repo
  }

  /** Removing the host from a string that starts with it leaves the rest. */
  lemma StripHost(rest: string)
    ensures ReplaceFirst(Host + rest, Host, "") == rest
  {
    assert StartsWith(Host + rest, Host);
    ReplaceFirstAtStart(Host + rest, Host, "");
    assert (Host + rest)[|Host|..] == rest;
  }

  /** ".git" cannot start again inside itself. */
  lemma GitCannotOverlap()
    ensures ".git"[0] !in ".git"[1..]
  {
    assert ".git"[1..] == ['g', 'i', 't'];
  }

  /** Removing ".git" from `a + ".git" + b`, where `a` has no ".git",
      removes exactly the one right after `a`. */
  lemma StripFirstGit(a: string, b: string)
    requires !Contains(a, ".git")
    ensures ReplaceFirst(a + ".git" + b, ".git", "") == a + b
  {
    GitCannotOverlap();
    ReplaceFirstAfter(a, ".git", b, "");
    assert a + "" + b == a + b;
  }

  /** `https://github.com<path>.git` resolves to `<path>`. */
  lemma NormalizeGitUrl(path: string)
    requires !Contains(path, ".git")
    ensures Normalize(Host + path + ".git") == path
  {
    var raw := Host + path + ".git";
    assert raw[|raw| - 4..] == ".git";
    assert raw == Host + (path + ".git");
    StripHost(path + ".git");
    StripFirstGit(path, "");
    assert path + ".git" + "" == path + ".git";
  }

  /** `https://github.com<path>/` resolves to `<path>`, whatever `path` is. */
  lemma NormalizeSlashUrl(path: string)
    ensures Normalize(Host + path + "/") == path
  {
    var raw := Host + path + "/";
    assert raw[|raw| - 1] == '/';
    assert !EndsWith(raw, ".git");
    assert raw == Host + (path + "/");
    StripHost(path + "/");
    assert (path + "/")[..|path|] == path;
  }

  /** `https://github.com<path>` resolves to `<path>` when the path starts
      with '/' and ends neither with '/' nor with ".git". */
  lemma NormalizeBareUrl(path: string)
    requires StartsWith(path, "/")
    requires !EndsWith(path, "/") && !EndsWith(path, ".git")
    ensures Normalize(Host + path) == path
  {
    var raw := Host + path;
    if |path| >= 4 {
      assert raw[|raw| - 4..] == path[|path| - 4..];
    } else {
      assert raw[|Host|] == '/';
      assert raw[|raw| - 4..][4 - |path|] == '/';
    }
    assert !EndsWith(raw, ".git");
    StripHost(path);
  }

  /** The three spellings `https://github.com/org/repo.git`,
      `https://github.com/org/repo/` and `https://github.com/org/repo` of one
      repository all resolve to `/org/repo`. */
  lemma NormalizeSpellings()
    ensures var path := "/org/repo";
      && Normalize(Host + path + ".git") == path
      && Normalize(Host + path + "/") == path
      && Normalize(Host + path) == path
  {
    var path := "/org/repo";
    NotContainsByFirstChar(path, ".git");
    NormalizeGitUrl(path);
    NormalizeSlashUrl(path);
    assert path[|path| - 1] == 'o';
    assert path[|path| - 4..] == "repo";
    NormalizeBareUrl(path);
  }

  /** When ".git" also occurs inside the name, the first occurrence is the
      one removed and the final ".git" stays. */
  lemma NormalizeRemovesFirstGit(a: string, b: string)
    requires !Contains(a, ".git")
    ensures Normalize(Host + a + ".git" + b + ".git") == a + b + ".git"
  {
    var raw := Host + a + ".git" + b + ".git";
    assert raw[|raw| - 4..] == ".git";
    assert raw == Host + (a + ".git" + (b + ".git"));
    StripHost(a + ".git" + (b + ".git"));
    StripFirstGit(a, b + ".git");
    assert a + (b + ".git") == a + b + ".git";
  }

  /** For instance, `https://github.com/org/my.github.io.git`, a GitHub
      Pages repository, resolves to `/org/myhub.io.git`: the ".git" of
      "github" is removed rather than the suffix. */
  lemma NormalizePagesRepository()
    ensures var a, b := "/org/my", "hub.io";
      Normalize(Host + a + ".git" + b + ".git") == a + b + ".git"
  {
    var a := "/org/my";
    NotContainsByFirstChar(a, ".git");
    NormalizeRemovesFirstGit(a, "hub.io");
  }

  /** Only one trailing '/' is removed. */
  lemma NormalizeKeepsSecondSlash(path: string)
    ensures Normalize(Host + path + "//") == path + "/"
  {
    NormalizeSlashUrl(path + "/");
    assert Host + (path + "/") + "/" == Host + path + "//";
  }
}
