/** The `get_github_repo_name` provider function: the repository part of an
    `owner/repo` name. */
module GithubRepoName {
  import opened Strings
  import opened FuncErrors
  import GithubOwner

  /** Runs the function on the decoded argument. `arg` is what decoding the
      call's one string argument produced; a decoding error is passed on and
      nothing is split. Otherwise the name must split on `/` into exactly two
      parts, and the second one is returned. */
  function GetGithubRepoName(arg: Result<string>): (r: Result<string>)
    ensures arg.Failure? ==> r == arg
    ensures arg.Success? ==> (r.Success? <==> Count(arg.value, '/') == 1)
    ensures arg.Success? && r.Failure? ==> r.error == InvalidRepositoryName
    ensures r.Success? ==>
      && '/' !in r.value
      && |r.value| < |arg.value|
      && arg.value == arg.value[..|arg.value| - |r.value| - 1] + "/" + r.value
      && '/' !in arg.value[..|arg.value| - |r.value| - 1]
  {
    match arg
    case Failure(e) => Failure(e)
    case Success(repoName) =>
      var parts := Split(repoName, '/');
      if |parts| != 2 then
        Failure(InvalidRepositoryName)
      else
        SplitInTwo(repoName, '/');
        assert repoName[..|repoName| - |parts[1]| - 1] == parts[0];
        Success(parts[1])
  }

  /** An empty repository name is accepted: `owner/` gives the empty string. */
  lemma EmptyRepoNameAccepted()
    ensures GetGithubRepoName(Success("owner/")) == Success("")
  {
    SplitJoin(["owner", ""], '/');
    assert Join(["owner", ""], '/') == "owner/";
  }

  /** The two helpers accept exactly the same names, and on those the owner,
      a `/` and the repository name spell the name back. */
  lemma OwnerAndRepoNameRecombine(name: string)
    ensures GithubOwner.GetGithubOwner(Success(name)).Success?
        <==> GetGithubRepoName(Success(name)).Success?
    ensures GetGithubRepoName(Success(name)).Success? ==>
      name == GithubOwner.GetGithubOwner(Success(name)).value + "/"
            + GetGithubRepoName(Success(name)).value
  {
    SplitInTwo(name, '/');
  }
}
