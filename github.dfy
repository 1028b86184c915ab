/**
 * The hosting service as the review bot sees it through its pull-request
 * handle: the list of changed files, the head commit, and the two kinds of
 * comment it can create. `posted` records every `create_issue_comment` and
 * `create_review_comment` call the bot makes with a string body (and, for a
 * review comment, a string path and an integer position), whether or not
 * it succeeds. `accepts` says whether such a call returns normally: a
 * refusal by the client library or by the service is folded into it alike.
 * The commit is passed as the head commit's SHA string; a library that
 * wants a commit object there refuses every review comment, which `accepts`
 * expresses by being false on all of them.
 */
module GitHub {
  import opened Wrappers

  /** One changed file as the hosting service lists it. `sha`, `additions`
      and `deletions` stand for the fields the bot does not copy. `patch` is
      absent for files the service shows no diff for (binary or too large). */
  datatype PullFile = PullFile(
    filename: string,
    patch: Option<string>,
    status: string,
    rawUrl: string,
    sha: string,
    additions: nat,
    deletions: nat)

  /** A comment the bot asks the service to create. */
  datatype Post =
    | IssueComment(body: string)
    | ReviewComment(body: string, commitId: string, path: string, position: int)

  class PullRequest {
    /** What `get_files()` lists, in the service's order, or `None` where
        reading the listing raises (on any of its pages). */
    const listing: Option<seq<PullFile>>
    /** `head.sha`: the commit review comments are anchored to. */
    const headSha: string
    /** Whether a comment call returns normally (a refused call raises). */
    const accepts: Post -> bool
    /** Every comment attempted so far, oldest first. */
    var posted: seq<Post>

    constructor (listing: Option<seq<PullFile>>, headSha: string, accepts: Post -> bool)
      ensures this.listing == listing && this.headSha == headSha
      ensures this.accepts == accepts
      ensures posted == []
    {
      this.listing := listing;
      this.headSha := headSha;
      this.accepts := accepts;
      posted := [];
    }

    /** Reading `pr.get_files()` to the end; `None` where that raises. */
    method GetFiles() returns (fs: Option<seq<PullFile>>)
      ensures fs == listing
    {
      fs := listing;
    }

    /** `pr.create_issue_comment(body)`; `ok` is false where the call raises. */
    method CreateIssueComment(body: string) returns (ok: bool)
      modifies this
      ensures posted == old(posted) + [IssueComment(body)]
      ensures ok == accepts(IssueComment(body))
    {
      posted := posted + [IssueComment(body)];
      ok := accepts(IssueComment(body));
    }

    /** `pr.create_review_comment(body=…, commit_id=…, path=…, position=…)`;
        `ok` is false where the call raises. */
    method CreateReviewComment(body: string, commitId: string, path: string, position: int)
      returns (ok: bool)
      modifies this
      ensures posted == old(posted) + [ReviewComment(body, commitId, path, position)]
      ensures ok == accepts(ReviewComment(body, commitId, path, position))
    {
      var p := ReviewComment(body, commitId, path, position);
      posted := posted + [p];
      ok := accepts(p);
    }
  }
}
