/** The `get_github_owner` provider function: the owner part of an
    `owner/repo` name. */
module GithubOwner {
  import opened Strings
  import opened FuncErrors

  /** Runs the function on the decoded argument. `arg` is what decoding the
      call's one string argument produced; a decoding error is passed on and
      nothing is split. Otherwise the name must split on `/` into exactly two
      parts, and the first one is returned. */
  function GetGithubOwner(arg: Result<string>): (r: Result<string>)
    ensures arg.Failure? ==> r == arg
    ensures arg.Success? ==> (r.Success? <==> Count(arg.value, '/') == 1)
    ensures arg.Success? && r.Failure? ==> r.error == InvalidRepositoryName
    ensures r.Success? ==>
      && '/' !in r.value
      && |r.value| < |arg.value|
      && arg.value == r.value + "/" + arg.value[|r.value| + 1..]
      && '/' !in arg.value[|r.value| + 1..]
  {
    match arg
    case Failure(e) => Failure(e)
    case Success(repoName) =>
      var parts := Split(repoName, '/');
      if |parts| != 2 then
        Failure(InvalidRepositoryName)
      else
        SplitInTwo(repoName, '/');
        assert repoName[|parts[0]| + 1..] == parts[1];
        Success(parts[0])
  }

  /** An empty owner is accepted: `/repo` gives the empty string. */
  lemma EmptyOwnerAccepted()
    ensures GetGithubOwner(Success("/repo")) == Success("")
  {
    SplitJoin(["", "repo"], '/');
    assert Join(["", "repo"], '/') == "/repo";
  }
}
