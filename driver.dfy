/**
 * The script's main logic: list the reviewable files; with none, post one
 * explanatory comment and stop; otherwise ask the model about each file in
 * turn, post the comments of every non-empty review, and finish with a
 * summary comment. An exception nobody catches ends the run on the spot: a
 * listing that cannot be read, a rejected issue comment, a decoder exception
 * other than a decode error, or a decoded value that cannot be iterated.
 */
module Driver {
  import opened Wrappers
  import opened GitHub
  import opened Gemini
  import opened FileFilter
  import opened ReviewRequester
  import opened ReviewPoster

  // The two messages below are split after their first word so that the
  // verifier can read their first characters cheaply.

  /** The comment posted when no file passes the filter. */
  const NoFilesMessage: string :=
    "Le bot " + "de revue de code n'a trouv\U{e9} aucun fichier de code pertinent \U{e0} analyser dans cette Pull Request."

  /** The comment that closes a run. */
  const SummaryMessage: string :=
    "\U{2705} " + "Revue de code interactive par Gemini termin\U{e9}e. Veuillez v\U{e9}rifier les commentaires en ligne pour le feedback."

  /** Everything outside the script a run depends on: the model's replies,
      the JSON decoder, the head commit and the service's answers. */
  datatype Env = Env(respond: ChangedFile -> Reply, parse: string -> Parsed, headSha: string, accepts: Post -> bool)

  /** Comments attempted, files the model was asked about, and whether an
      exception escaped. */
  datatype Trace = Trace(posts: seq<Post>, asked: seq<ChangedFile>, crashed: bool)

  /** How a run ends: after the summary, at the early exit, or by an
      uncaught exception. */
  datatype RunEnd = Completed | NothingToReview | Crashed

  datatype RunTrace = RunTrace(posts: seq<Post>, asked: seq<ChangedFile>, end: RunEnd)

  /** The environment a pull request, a client and a decoder make up. */
  function EnvOf(pr: PullRequest, ai: Client<ChangedFile>, parse: string -> Parsed): Env {
    Env(ai.respond, parse, pr.headSha, pr.accepts)
  }

  /** One iteration of the main loop: a review that is `None` or empty is
      not posted. */
  function FileTrace(f: ChangedFile, env: Env): Trace {
    var review := Review(env.respond(f));
    if review.Some? && review.value != [] then
      var o := PostPlan(f.filename, review.value, env.parse(review.value), env.headSha, env.accepts);
      Trace(o.posts, [f], o.crashed)
    else
      Trace([], [f], false)
  }

  /** The main loop over the kept files, up to the first uncaught exception. */
  function Loop(files: seq<ChangedFile>, env: Env): Trace
    decreases |files|
  {
    if files == [] then Trace([], [], false)
    else
      var t := Loop(files[..|files| - 1], env);
      if t.crashed then t
      else
        var u := FileTrace(files[|files| - 1], env);
        Trace(t.posts + u.posts, t.asked + u.asked, u.crashed)
  }

  /** A whole run over a listing that could be read. */
  function Plan(prFiles: seq<PullFile>, env: Env): RunTrace {
    var files := Filter(prFiles);
    if files == [] then
      var c := IssueComment(NoFilesMessage);
      RunTrace([c], [], if env.accepts(c) then NothingToReview else Crashed)
    else
      var t := Loop(files, env);
      if t.crashed then RunTrace(t.posts, t.asked, Crashed)
      else
        var c := IssueComment(SummaryMessage);
        RunTrace(t.posts + [c], t.asked, if env.accepts(c) then Completed else Crashed)
  }

  /** A whole run: a listing that cannot be read ends it before anything is
      posted or asked. */
  function RunPlan(listing: Option<seq<PullFile>>, env: Env): RunTrace {
    match listing
    case None => RunTrace([], [], Crashed)
    case Some(prFiles) => Plan(prFiles, env)
  }

  /** The body of the `for file_data in files_to_review` loop. */
  method ReviewFile(pr: PullRequest, ai: Client<ChangedFile>, parse: string -> Parsed, fileData: ChangedFile)
    returns (crashed: bool)
    modifies pr, ai
    ensures var u := FileTrace(fileData, EnvOf(pr, ai, parse));
      pr.posted == old(pr.posted) + u.posts && ai.requests == old(ai.requests) + u.asked
      && crashed == u.crashed
  {
    var reviewJson := GenerateAiReview(ai, fileData);
    crashed := false;
    if reviewJson.Some? && reviewJson.value != [] {
      crashed := PostReviewComments(pr, fileData, reviewJson.value, parse);
    }
  }

  /** The `for file_data in files_to_review` loop; it is left by the first
      exception that escapes. */
  method ReviewAll(pr: PullRequest, ai: Client<ChangedFile>, parse: string -> Parsed, files: seq<ChangedFile>)
    returns (crashed: bool)
    modifies pr, ai
    ensures var t := Loop(files, EnvOf(pr, ai, parse));
      pr.posted == old(pr.posted) + t.posts && ai.requests == old(ai.requests) + t.asked
      && crashed == t.crashed
  {
    var env := EnvOf(pr, ai, parse);
    var i := 0;
    crashed := false;
    while i < |files| && !crashed
      invariant 0 <= i <= |files|
      invariant var t := Loop(files[..i], env);
        pr.posted == old(pr.posted) + t.posts && ai.requests == old(ai.requests) + t.asked
        && crashed == t.crashed
    {
      ghost var t := Loop(files[..i], env);
      ghost var u := FileTrace(files[i], env);
      ghost var posted, requests := pr.posted, ai.requests;
      LoopStep(files, i, env);
      crashed := ReviewFile(pr, ai, parse, files[i]);
      assert pr.posted == posted + u.posts && ai.requests == requests + u.asked;
      AppendAssoc(old(pr.posted), t.posts, u.posts);
      AppendAssoc(old(ai.requests), t.asked, u.asked);
      i := i + 1;
    }
    LoopStopsAtCrash(files, i, env);
  }

  /** The script's main logic, run against a pull request and a client. */
  method Run(pr: PullRequest, ai: Client<ChangedFile>, parse: string -> Parsed) returns (end: RunEnd)
    modifies pr, ai
    ensures var p := RunPlan(pr.listing, EnvOf(pr, ai, parse));
      pr.posted == old(pr.posted) + p.posts && ai.requests == old(ai.requests) + p.asked
      && end == p.end
  {
    var listed := GetPrFiles(pr);
    if listed.None? {
      end := Crashed;
      return;
    }
    var filesToReview := listed.value;
    if filesToReview == [] {
      var ok := pr.CreateIssueComment(NoFilesMessage);
      end := if ok then NothingToReview else Crashed;
      return;
    }
    var crashed := ReviewAll(pr, ai, parse, filesToReview);
    if crashed {
      end := Crashed;
      return;
    }
    var ok := pr.CreateIssueComment(SummaryMessage);
    end := if ok then Completed else Crashed;
  }

  lemma AppendAssoc<T>(a: seq<T>, b: seq<T>, c: seq<T>)
    ensures a + b + c == a + (b + c)
  {
  }

  /** One more file extends the loop's trace by that file's. */
  lemma LoopStep(files: seq<ChangedFile>, i: nat, env: Env)
    requires i < |files| && !Loop(files[..i], env).crashed
    ensures var t := Loop(files[..i], env);
      var u := FileTrace(files[i], env);
      Loop(files[..i + 1], env) == Trace(t.posts + u.posts, t.asked + u.asked, u.crashed)
  {
    assert files[..i + 1][..i] == files[..i];
  }

  /** Once an exception has escaped, later files change nothing. */
  lemma {:induction false} LoopStopsAtCrash(files: seq<ChangedFile>, i: nat, env: Env)
    requires i <= |files|
    requires i == |files| || Loop(files[..i], env).crashed
    ensures Loop(files, env) == Loop(files[..i], env)
    decreases |files|
  {
    if i < |files| {
      var init := files[..|files| - 1];
      assert init[..i] == files[..i];
      LoopStopsAtCrash(init, i, env);
    } else {
      assert files[..i] == files;
    }
  }

  /** The files the model is asked about are a prefix of the kept files, and
      all of them unless an exception escaped. */
  lemma {:induction false} LoopAsked(files: seq<ChangedFile>, env: Env)
    ensures Loop(files, env).asked <= files
    ensures !Loop(files, env).crashed ==> Loop(files, env).asked == files
    decreases |files|
  {
    if files != [] {
      var init := files[..|files| - 1];
      LoopAsked(init, env);
      if !Loop(init, env).crashed {
        assert init + [files[|files| - 1]] == files;
      }
    }
  }

  /** Over at least one file the model is asked something, and an exception
      escapes exactly when the last file asked about raised. */
  lemma {:induction false} LoopCrashIsLastFile(files: seq<ChangedFile>, env: Env)
    requires files != []
    ensures var t := Loop(files, env);
      t.asked != [] && (t.crashed <==> FileTrace(t.asked[|t.asked| - 1], env).crashed)
    decreases |files|
  {
    var init := files[..|files| - 1];
    var t := Loop(init, env);
    if init != [] {
      LoopCrashIsLastFile(init, env);
    }
    if t.crashed {
      assert Loop(files, env) == t;
    } else {
      var f := files[|files| - 1];
      var u := FileTrace(f, env);
      PostsNeedAReview(f, env);
      assert Loop(files, env) == Trace(t.posts + u.posts, t.asked + [f], u.crashed);
      assert (t.asked + [f])[|t.asked + [f]| - 1] == f;
    }
  }

  /** Every review comment of the loop is anchored to the head commit and to
      a file the model was asked about. */
  lemma {:induction false} LoopAnchored(files: seq<ChangedFile>, env: Env)
    ensures var t := Loop(files, env);
      forall q | q in t.posts && q.ReviewComment? ::
        q.commitId == env.headSha && exists f | f in t.asked :: f.filename == q.path
    decreases |files|
  {
    if files != [] {
      var init := files[..|files| - 1];
      LoopAnchored(init, env);
      var t := Loop(init, env);
      if !t.crashed {
        var f := files[|files| - 1];
        var u := FileTrace(f, env);
        assert f in u.asked;
        forall q | q in u.posts && q.ReviewComment?
          ensures q.commitId == env.headSha && q.path == f.filename
        {
        }
      }
    }
  }

  /** Nothing the loop posts is the summary comment. */
  lemma {:induction false} LoopHasNoSummary(files: seq<ChangedFile>, env: Env)
    ensures IssueComment(SummaryMessage) !in Loop(files, env).posts
    decreases |files|
  {
    if files != [] {
      var init := files[..|files| - 1];
      LoopHasNoSummary(init, env);
      if !Loop(init, env).crashed {
        FileTraceHasNoSummary(files[|files| - 1], env);
      }
    }
  }

  lemma FileTraceHasNoSummary(f: ChangedFile, env: Env)
    ensures IssueComment(SummaryMessage) !in FileTrace(f, env).posts
  {
    var review := Review(env.respond(f));
    if review.Some? && review.value != [] && env.parse(review.value).ParseError? {
      FallbackIsNotSummary(f.filename, review.value);
    }
  }

  lemma FallbackIsNotSummary(filename: string, raw: string)
    ensures FallbackBody(filename, raw) != SummaryMessage
  {
    assert FallbackBody(filename, raw)[0] != SummaryMessage[0];
  }

  /** The model is asked about every kept file once, in order, unless an
      exception escapes; then about a prefix of them. It is asked about
      nothing exactly when no file is kept. */
  lemma AskedPrefix(prFiles: seq<PullFile>, env: Env)
    ensures var p := Plan(prFiles, env);
      p.asked <= Filter(prFiles)
      && (p.end != Crashed ==> p.asked == Filter(prFiles))
      && (p.asked == [] <==> Filter(prFiles) == [])
  {
    LoopAsked(Filter(prFiles), env);
    if Filter(prFiles) != [] {
      LoopCrashIsLastFile(Filter(prFiles), env);
    }
  }

  /** With no reviewable file the run posts the explanatory comment alone,
      asks the model nothing and posts no summary; this is the only way it
      ends early without an exception. */
  lemma NoReviewableFiles(prFiles: seq<PullFile>, env: Env)
    ensures var p := Plan(prFiles, env);
      (Filter(prFiles) == [] ==> p.posts == [IssueComment(NoFilesMessage)] && p.asked == [])
      && (p.end == NothingToReview <==> Filter(prFiles) == [] && env.accepts(IssueComment(NoFilesMessage)))
  {
  }

  /** The summary is posted only as the very last comment, at most once,
      and always when the run completes. */
  lemma SummaryLast(prFiles: seq<PullFile>, env: Env)
    ensures var p := Plan(prFiles, env);
      (IssueComment(SummaryMessage) in p.posts ==>
        p.posts[|p.posts| - 1] == IssueComment(SummaryMessage)
        && IssueComment(SummaryMessage) !in p.posts[..|p.posts| - 1])
      && (p.end == Completed ==> IssueComment(SummaryMessage) in p.posts)
      && (IssueComment(SummaryMessage) in p.posts
          <==> Filter(prFiles) != [] && !Loop(Filter(prFiles), env).crashed)
      && (IssueComment(SummaryMessage) in p.posts ==> p.asked == Filter(prFiles))
  {
    var files := Filter(prFiles);
    var p := Plan(prFiles, env);
    if files == [] {
      assert NoFilesMessage[0] != SummaryMessage[0];
      assert IssueComment(SummaryMessage) != IssueComment(NoFilesMessage);
      assert p.posts == [IssueComment(NoFilesMessage)];
    } else {
      var t := Loop(files, env);
      LoopHasNoSummary(files, env);
      LoopAsked(files, env);
      if !t.crashed {
        assert p.posts[..|p.posts| - 1] == t.posts;
        assert p.posts[|p.posts| - 1] == IssueComment(SummaryMessage);
      }
    }
  }

  /** Review comments go only to reviewable files the model was asked
      about, on the head commit. */
  lemma CommentsAnchored(prFiles: seq<PullFile>, env: Env)
    ensures var p := Plan(prFiles, env);
      forall q | q in p.posts && q.ReviewComment? ::
        q.commitId == env.headSha && IsReviewable(q.path)
        && exists f | f in p.asked :: f.filename == q.path
  {
    var files := Filter(prFiles);
    if files != [] {
      LoopAnchored(files, env);
      LoopAsked(files, env);
      var t := Loop(files, env);
      forall f | f in t.asked
        ensures IsReviewable(f.filename)
      {
        assert f in files;
      }
    }
  }

  /** A run ends by an exception exactly when the early-exit comment or the
      summary is rejected, or the last file the model was asked about
      raised. */
  lemma CrashCause(prFiles: seq<PullFile>, env: Env)
    ensures var p := Plan(prFiles, env);
      p.end == Crashed <==>
        if p.asked == [] then !env.accepts(IssueComment(NoFilesMessage))
        else FileTrace(p.asked[|p.asked| - 1], env).crashed || !env.accepts(IssueComment(SummaryMessage))
  {
    AskedPrefix(prFiles, env);
    if Filter(prFiles) != [] {
      LoopCrashIsLastFile(Filter(prFiles), env);
    }
  }

  /** With every issue comment accepted, no decoder exception other than a
      decode error and no decoded value that cannot be iterated, a run over at least one kept file completes and asks the
      model about every kept file. */
  lemma RunCompletes(prFiles: seq<PullFile>, env: Env)
    requires Filter(prFiles) != []
    requires forall c: Post | c.IssueComment? :: env.accepts(c)
    requires forall s: string :: !env.parse(s).TruthyScalar? && !env.parse(s).Raises?
    ensures Plan(prFiles, env).end == Completed
    ensures Plan(prFiles, env).asked == Filter(prFiles)
  {
    LoopNeverCrashes(Filter(prFiles), env);
    LoopAsked(Filter(prFiles), env);
  }

  lemma {:induction false} LoopNeverCrashes(files: seq<ChangedFile>, env: Env)
    requires forall c: Post | c.IssueComment? :: env.accepts(c)
    requires forall s: string :: !env.parse(s).TruthyScalar? && !env.parse(s).Raises?
    ensures !Loop(files, env).crashed
    decreases |files|
  {
    if files != [] {
      LoopNeverCrashes(files[..|files| - 1], env);
    }
  }

  /** Whether the service accepts review comments does not change the run:
      their failures are caught one by one. */
  lemma ReviewRejectionsIrrelevant(prFiles: seq<PullFile>, env: Env, accepts: Post -> bool)
    requires forall c: Post | c.IssueComment? :: env.accepts(c) == accepts(c)
    ensures Plan(prFiles, env) == Plan(prFiles, env.(accepts := accepts))
  {
    LoopRejectionsIrrelevant(Filter(prFiles), env, accepts);
  }

  lemma {:induction false} LoopRejectionsIrrelevant(files: seq<ChangedFile>, env: Env, accepts: Post -> bool)
    requires forall c: Post | c.IssueComment? :: env.accepts(c) == accepts(c)
    ensures Loop(files, env) == Loop(files, env.(accepts := accepts))
    decreases |files|
  {
    if files != [] {
      LoopRejectionsIrrelevant(files[..|files| - 1], env, accepts);
    }
  }

  /** A file is posted about only when the model answered with text that is
      not empty once cleaned; a failed call or an empty review skips it
      without stopping the run. */
  lemma PostsNeedAReview(f: ChangedFile, env: Env)
    ensures FileTrace(f, env).asked == [f]
    ensures FileTrace(f, env).posts != [] || FileTrace(f, env).crashed
      ==> env.respond(f).Text? && ExtractReview(env.respond(f).text) != []
  {
  }

  /** A listing that cannot be read ends the run by an exception; it is
      exactly the case where the run neither posts nor asks anything. */
  lemma ListingFailure(listing: Option<seq<PullFile>>, env: Env)
    ensures var p := RunPlan(listing, env);
      (listing.None? ==> p.end == Crashed)
      && (listing.None? <==> p.posts == [] && p.asked == [])
  {
    if listing.Some? {
      AskedPrefix(listing.value, env);
    }
  }
}
