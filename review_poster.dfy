/**
 * `post_review_comments`: decode the cleaned review as JSON and turn each
 * entry into a review comment on the file's line. What the decoder yields is
 * abstracted to the five outcomes the function tells apart: a decode error,
 * another exception out of the decoder (which nothing catches), a falsy
 * value, something it iterates over, and a truthy value that cannot be
 * iterated (`true` or a non-zero number), on which the `for` raises outside
 * any handler. A non-empty object or string iterates to items that are not
 * usable entries.
 */
module ReviewPoster {
  import opened PyStrings
  import opened GitHub
  import opened FileFilter

  /** One item of the decoded list. `Entry` is an object whose "comment" is a
      string and whose "line_number" is an integer; for it the bot makes a
      `create_review_comment` call, recorded in `posted`. Anything else is
      `Malformed`: a missing key or an item that is not an object raises on
      lookup, before any call. For a value of the wrong type the model
      assumes that the client library checks argument types before it sends
      anything, so that the call raises at once and the per-item handler
      catches it; such a call is not recorded in `posted`. */
  datatype Item = Entry(comment: string, lineNumber: int) | Malformed

  /** What `json.loads` yields, as far as `post_review_comments` can tell. */
  datatype Parsed =
    | ParseError
    | Raises
    | Falsy
    | Iterable(items: seq<Item>)
    | TruthyScalar

  /** Python truthiness of the decoded value: an empty list is falsy. */
  predicate Truthy(p: Parsed) {
    p.TruthyScalar? || (p.Iterable? && |p.items| > 0)
  }

  /** The comment posted on the pull request when decoding fails; it quotes
      the cleaned review. The literal is split after its first word so that
      the verifier can read the first character cheaply. */
  function FallbackBody(filename: string, reviewData: string): string {
    "Erreur: " + "L'IA n'a pas renvoy\U{e9} un format JSON valide pour le fichier "
      + filename + ". R\U{e9}ponse brute:\n\n" + reviewData
  }

  /** The comments one call attempts, and whether it raises out of the call. */
  datatype Outcome = Outcome(posts: seq<Post>, crashed: bool)

  /** The review comments attempted for a decoded list, in order. */
  function EntryPosts(items: seq<Item>, path: string, sha: string): (r: seq<Post>)
    ensures |r| <= |items|
    ensures forall p | p in r :: p.ReviewComment? && p.path == path && p.commitId == sha
    decreases |items|
  {
    if items == [] then []
    else
      var last := items[|items| - 1];
      EntryPosts(items[..|items| - 1], path, sha)
        + (if last.Entry? then [ReviewComment(last.comment, sha, path, last.lineNumber)] else [])
  }

  /** What `post_review_comments(file_data, review_data)` does, given the
      decoded value and the service's answers. */
  function PostPlan(filename: string, reviewData: string, parsed: Parsed, sha: string, accepts: Post -> bool): Outcome {
    match parsed
    case ParseError =>
      var c := IssueComment(FallbackBody(filename, reviewData));
      Outcome([c], !accepts(c))
    case Raises => Outcome([], true)
    case Falsy => Outcome([], false)
    case TruthyScalar => Outcome([], true)
    case Iterable(items) => Outcome(EntryPosts(items, filename, sha), false)
  }

  /** `post_review_comments(file_data, review_data)`; `parse` stands for
      `json.loads`. `crashed` is true where an exception leaves the call. */
  method PostReviewComments(pr: PullRequest, fileData: ChangedFile, reviewData: string, parse: string -> Parsed)
    returns (crashed: bool)
    modifies pr
    ensures var o := PostPlan(fileData.filename, reviewData, parse(reviewData), pr.headSha, pr.accepts);
      pr.posted == old(pr.posted) + o.posts && crashed == o.crashed
  {
    var comments := parse(reviewData);
    if comments.ParseError? {
      var ok := pr.CreateIssueComment(FallbackBody(fileData.filename, reviewData));
      crashed := !ok;
      return;
    }
    if comments.Raises? {
      crashed := true;
      return;
    }
    if !Truthy(comments) {
      crashed := false;
      return;
    }
    if comments.TruthyScalar? {
      crashed := true;
      return;
    }
    var items := comments.items;
    for i := 0 to |items|
      invariant pr.posted == old(pr.posted) + EntryPosts(items[..i], fileData.filename, pr.headSha)
    {
      match items[i] {
        case Entry(body, line) =>
          var ok := pr.CreateReviewComment(body, pr.headSha, fileData.filename, line);
        case Malformed =>
      }
      assert items[..i + 1][..i] == items[..i];
    }
    assert items[..|items|] == items;
    crashed := false;
  }

  /** The fallback comment names the file and ends with the cleaned review. */
  lemma FallbackQuotes(filename: string, reviewData: string)
    ensures var b := FallbackBody(filename, reviewData);
      EndsWith(b, reviewData) && |b| > |filename| + |reviewData|
      && b[67..67 + |filename|] == filename
  {
    var head := "Erreur: " + "L'IA n'a pas renvoy\U{e9} un format JSON valide pour le fichier ";
    assert |head| == 67;
    var b := FallbackBody(filename, reviewData);
    assert b == head + filename + (". R\U{e9}ponse brute:\n\n" + reviewData);
  }

  /** Review comments are attempted for the entries of a list, one per
      entry, in order, each anchored to the file and the head commit. */
  lemma {:induction false} EntryPostsAllEntries(items: seq<Item>, path: string, sha: string)
    requires forall k | 0 <= k < |items| :: items[k].Entry?
    ensures var r := EntryPosts(items, path, sha);
      |r| == |items|
      && forall k | 0 <= k < |items| :: r[k] == ReviewComment(items[k].comment, sha, path, items[k].lineNumber)
    decreases |items|
  {
    if items != [] {
      var init := items[..|items| - 1];
      EntryPostsAllEntries(init, path, sha);
    }
  }

  /** The posts for two lists one after the other are those of each list. */
  lemma {:induction false} EntryPostsAppend(a: seq<Item>, b: seq<Item>, path: string, sha: string)
    ensures EntryPosts(a + b, path, sha) == EntryPosts(a, path, sha) + EntryPosts(b, path, sha)
    decreases |b|
  {
    if b == [] {
      assert a + b == a;
    } else {
      var init, last := b[..|b| - 1], b[|b| - 1];
      var tail := if last.Entry? then [ReviewComment(last.comment, sha, path, last.lineNumber)] else [];
      EntryPostsAppend(a, init, path, sha);
      assert (a + b)[..|a + b| - 1] == a + init;
      assert (a + b)[|a + b| - 1] == last;
      calc {
        EntryPosts(a + b, path, sha);
        EntryPosts(a + init, path, sha) + tail;
        (EntryPosts(a, path, sha) + EntryPosts(init, path, sha)) + tail;
        { assert EntryPosts(b, path, sha) == EntryPosts(init, path, sha) + tail; }
        EntryPosts(a, path, sha) + EntryPosts(b, path, sha);
      }
    }
  }

  /** A malformed item is skipped: nothing is attempted for it and the
      items after it are still posted. */
  lemma MalformedSkipped(a: seq<Item>, b: seq<Item>, path: string, sha: string)
    ensures EntryPosts(a + [Malformed] + b, path, sha) == EntryPosts(a + b, path, sha)
  {
    EntryPostsAppend(a + [Malformed], b, path, sha);
    EntryPostsAppend(a, [Malformed], path, sha);
    EntryPostsAppend(a, b, path, sha);
    assert EntryPosts([Malformed], path, sha) == [];
  }

  /** An issue comment is attempted exactly when decoding fails, and then
      it is the only comment attempted; otherwise only review comments are. */
  lemma IssueCommentIffParseError(filename: string, raw: string, parsed: Parsed, sha: string, accepts: Post -> bool)
    ensures var o := PostPlan(filename, raw, parsed, sha, accepts);
      ((exists p | p in o.posts :: p.IssueComment?) <==> parsed.ParseError?)
      && (parsed.ParseError? ==> |o.posts| == 1)
  {
    var o := PostPlan(filename, raw, parsed, sha, accepts);
    if parsed.ParseError? {
      assert o.posts[0] in o.posts;
    }
  }

  /** The call raises only when the decoder raises something other than a
      decode error, when the decoded value is a non-iterable truthy value,
      or when the fallback comment is rejected; a rejected review comment
      never makes it raise. */
  lemma CrashCauses(filename: string, raw: string, parsed: Parsed, sha: string, accepts: Post -> bool)
    ensures PostPlan(filename, raw, parsed, sha, accepts).crashed
      <==> (parsed.Raises? || parsed.TruthyScalar?
            || (parsed.ParseError? && !accepts(IssueComment(FallbackBody(filename, raw)))))
  {
  }

  /** A falsy decoded value, including an empty list, attempts nothing. */
  lemma FalsyPostsNothing(filename: string, raw: string, parsed: Parsed, sha: string, accepts: Post -> bool)
    requires parsed.Falsy? || (parsed.Iterable? && parsed.items == [])
    ensures PostPlan(filename, raw, parsed, sha, accepts) == Outcome([], false)
  {
  }

  /** Whether the service accepts review comments changes nothing about what
      is attempted or whether the call raises. */
  lemma ReviewRejectionsIgnored(filename: string, raw: string, parsed: Parsed, sha: string, acc1: Post -> bool, acc2: Post -> bool)
    requires forall p: Post | p.IssueComment? :: acc1(p) == acc2(p)
    ensures PostPlan(filename, raw, parsed, sha, acc1) == PostPlan(filename, raw, parsed, sha, acc2)
  {
  }
}
