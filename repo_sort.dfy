/**
 * The script's control flow once the listing request has answered: on
 * status 200 it sorts the decoded records newest first and prints the
 * listing; on any other status it prints one failure line and sorts nothing.
 */
module RepoSort {
  import opened Repos
  import opened Listing

  /**
   * The HTTP answer: its status code, and the records its JSON body decodes
   * to (read only when the status is 200).
   */
  datatype Response = Response(statusCode: int, repos: seq<Repo>)

  /** Everything the script prints, one string per printed line. */
  method Run(response: Response) returns (lines: seq<string>)
    ensures |lines| > 0
    ensures lines[0] == Header <==> response.statusCode == 200
    ensures response.statusCode == 200 ==>
      && |lines| == |response.repos| + 1
      && forall i | 0 <= i < |response.repos| ::
           lines[i + 1] == RepoLine(SortByCreatedDesc(response.repos)[i])
    ensures response.statusCode != 200 ==> lines == [FailureLine(response.statusCode)]
  {
    if response.statusCode == 200 {
      var sorted := SortByCreatedDesc(response.repos);
      lines := ListRepositories(sorted);
    } else {
      lines := [FailureLine(response.statusCode)];
    }
  }
}
