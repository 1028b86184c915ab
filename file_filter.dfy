/**
 * `get_pr_files`: keep, in the service's order, the changed files whose name
 * ends with one of five extensions, copying four fields of each.
 */
module FileFilter {
  import opened Wrappers
  import opened PyStrings
  import opened GitHub

  /** The record the bot builds per kept file. */
  datatype ChangedFile = ChangedFile(filename: string, patch: Option<string>, status: string, rawUrl: string)

  /** The extensions `endswith` is given, in the source's order. */
  const Extensions: seq<string> := [".py", ".js", ".html", ".css", ".md"]

  /** `filename.endswith(('.py', '.js', '.html', '.css', '.md'))`: case-sensitive. */
  predicate IsReviewable(name: string) {
    EndsWithAny(name, Extensions)
  }

  /** The record built for one kept file. */
  function Copy(f: PullFile): ChangedFile {
    ChangedFile(f.filename, f.patch, f.status, f.rawUrl)
  }

  /** The list `get_pr_files` returns for the listed files. */
  function Filter(files: seq<PullFile>): (kept: seq<ChangedFile>)
    ensures |kept| <= |files|
    ensures forall c | c in kept :: IsReviewable(c.filename)
    decreases |files|
  {
    if files == [] then []
    else
      var last := files[|files| - 1];
      Filter(files[..|files| - 1]) + (if IsReviewable(last.filename) then [Copy(last)] else [])
  }

  /** The loop of `get_pr_files`, appending to `files_data`. `None` stands
      for the exception raised where the listing cannot be read; since the
      function returns nothing then, a failure on a later page is the same
      as a failure on the first. */
  method GetPrFiles(pr: PullRequest) returns (filesData: Option<seq<ChangedFile>>)
    ensures pr.listing.None? ==> filesData.None?
    ensures pr.listing.Some? ==> filesData == Some(Filter(pr.listing.value))
  {
    var listing := pr.GetFiles();
    if listing.None? {
      return None;
    }
    var files := listing.value;
    var kept := [];
    for i := 0 to |files|
      invariant kept == Filter(files[..i])
    {
      var file := files[i];
      if IsReviewable(file.filename) {
        kept := kept + [ChangedFile(file.filename, file.patch, file.status, file.rawUrl)];
      }
      assert files[..i + 1][..i] == files[..i];
    }
    assert files[..|files|] == files;
    filesData := Some(kept);
  }

  /** Reference definition: the positions, in ascending order, of the listed
      files whose name is reviewable. */
  ghost function KeptPositions(files: seq<PullFile>): seq<nat>
    decreases |files|
  {
    if files == [] then []
    else
      var n := |files| - 1;
      KeptPositions(files[..n]) + (if IsReviewable(files[n].filename) then [n] else [])
  }

  /** The positions are in range and strictly ascending. */
  lemma {:induction false} KeptPositionsAscending(files: seq<PullFile>)
    ensures forall k | 0 <= k < |KeptPositions(files)| :: KeptPositions(files)[k] < |files|
    ensures forall k, l | 0 <= k < l < |KeptPositions(files)| ::
      KeptPositions(files)[k] < KeptPositions(files)[l]
    decreases |files|
  {
    if files != [] {
      KeptPositionsAscending(files[..|files| - 1]);
    }
  }

  /** A position is kept exactly when the file there has a reviewable name. */
  lemma {:induction false} KeptPositionsExact(files: seq<PullFile>)
    ensures forall n | 0 <= n < |files| :: n in KeptPositions(files) <==> IsReviewable(files[n].filename)
    decreases |files|
  {
    if files != [] {
      var m := |files| - 1;
      var init := files[..m];
      KeptPositionsExact(init);
      KeptPositionsAscending(init);
      var prev := KeptPositions(init);
      forall n | 0 <= n < |files|
        ensures n in KeptPositions(files) <==> IsReviewable(files[n].filename)
      {
        if n < m {
          assert files[n] == init[n];
        } else {
          assert n !in prev;
        }
      }
    }
  }

  /** The kept records are copies of the files at the kept positions, in
      that order, so the four fields are carried over unchanged. */
  lemma {:induction false} FilterCopies(files: seq<PullFile>)
    ensures |Filter(files)| == |KeptPositions(files)|
    ensures forall k | 0 <= k < |Filter(files)| ::
      KeptPositions(files)[k] < |files| && Filter(files)[k] == Copy(files[KeptPositions(files)[k]])
    decreases |files|
  {
    if files != [] {
      var m := |files| - 1;
      var init := files[..m];
      FilterCopies(init);
      KeptPositionsAscending(files);
      forall k | 0 <= k < |Filter(init)|
        ensures files[KeptPositions(init)[k]] == init[KeptPositions(init)[k]]
      {
      }
    }
  }

  /** Filtering commutes with concatenation, so the relative order of kept
      files is that of the listing. */
  lemma {:induction false} FilterAppend(a: seq<PullFile>, b: seq<PullFile>)
    ensures Filter(a + b) == Filter(a) + Filter(b)
    decreases |b|
  {
    if b == [] {
      assert a + b == a;
    } else {
      var b', last := b[..|b| - 1], b[|b| - 1];
      var tail := if IsReviewable(last.filename) then [Copy(last)] else [];
      FilterAppend(a, b');
      assert (a + b)[..|a + b| - 1] == a + b';
      assert (a + b)[|a + b| - 1] == last;
      calc {
        Filter(a + b);
        Filter(a + b') + tail;
        (Filter(a) + Filter(b')) + tail;
        { assert Filter(b) == Filter(b') + tail; }
        Filter(a) + Filter(b);
      }
    }
  }

  /** Matching is on the exact suffix: case and near-misses are not kept. */
  lemma ReviewableExamples()
    ensures IsReviewable("src/app.py") && IsReviewable("docs/index.html")
    ensures !IsReviewable("README.MD") && !IsReviewable("build.pyc") && !IsReviewable("py")
  {
  }
}
