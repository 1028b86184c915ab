# Interactive code-review bot: a Dafny model of its decision layer

The bot is a CI script that reviews one pull request. It does four things in order:

1. It lists the changed files and keeps those whose name ends in `.py`, `.js`, `.html`, `.css` or `.md`.
2. It asks a generative model to review each kept file's patch and cleans up the answer.
3. It decodes the answer as JSON and posts one review comment per entry on the file's line.
4. It posts a closing summary comment.

This project models the deterministic part of that pipeline and proves what it does for every input.

The outside world is a set of parameters:

- `GitHub.PullRequest` holds the file listing, the head commit and `accepts`. The listing is `None` where reading it raises. The bot's effects are the `posted` sequence: every `create_issue_comment` and `create_review_comment` call the script makes with arguments of the expected types (string body and path, integer position) is appended to it. `accepts` says whether such a call returns normally; a refusal by the client library or by the service is folded into it alike, and a refused call raises in the script. The commit is passed as the head commit's SHA string: if the library insists on a commit object there, `accepts` is false on every review comment.
- `Gemini.Client` holds `respond`, the model's reply to each file, and records every request.
- `parse` stands for `json.loads`. It is abstracted to the five outcomes the script tells apart:
  - a decode error;
  - another exception out of the decoder, such as a recursion error on deeply nested input;
  - a falsy value;
  - an iterable value, whose items are either well-formed entries or not;
  - a truthy value that cannot be iterated.

Modules:

- `PyStrings`: Python's `startswith`, `endswith` and `strip`, with CPython's character-set semantics for `strip(chars)`.
- `GitHub`, `Gemini`: the two clients as classes that record what is asked of them.
- `FileFilter`: `get_pr_files`.
- `ReviewRequester`: `generate_ai_review` and its fence strip.
- `ReviewPoster`: `post_review_comments`.
- `Driver`: the main logic.

Each imperative piece has two parts. A method runs the source's loop against the classes. A function describes the same run on values (`Filter`, `PostPlan`, `Loop`, `RunPlan`). The method's postcondition ties the new state to that function, and lemmas state what the function guarantees.

An exception that nobody catches ends the script. The model calls this a crash (`crashed`, `RunEnd.Crashed`). It comes from one of four sources:

- the file listing cannot be read, before anything is posted or asked (`Driver.ListingFailure`);
- one of the three issue comments is rejected: the fallback comment, the explanatory comment or the summary;
- the decoder raises something other than a decode error;
- the decoded value is truthy but cannot be iterated, such as `true` or `5`, and `for comment in comments` raises outside any handler.

Three consequences of the script as written:

- A crash while a file is processed, or a rejected summary, ends the run without an accepted summary (`Driver.CrashCause`).
- Only a lower-case "```json" marker triggers the fence strip, and it strips by character set. A plain "```" fence stays, and a fence glued to the body also eats the body's edge characters from `` ` ``, `j`, `s`, `o`, `n` (`ReviewRequester.GluedFenceEatsN`).
- An item without a "comment" or a "line_number" key, or that is not an object, raises on lookup before the comment request is made. For an item whose values have the wrong type, the model assumes that the client library checks argument types before sending anything, so that the call raises at once. Either way the per-item handler catches it, and `posted` records no call for it.

## Model

| member | source | states |
|---|---|---|
| PyStrings.StartsWith | interactive_review.py:63 | `s.startswith(prefix)`: `prefix` is no longer than `s` and equals its first characters |
| PyStrings.EndsWith | interactive_review.py:26 | `s.endswith(suffix)`: `suffix` is no longer than `s` and equals its last characters |
| PyStrings.EndsWithAny | interactive_review.py:26 | `s.endswith(suffixes)` with a tuple: true when `s` ends with at least one of them, so false for an empty tuple |
| PyStrings.EndsWithAnyExists | interactive_review.py:26 | the tuple form holds if and only if some suffix of the tuple ends the string |
| PyStrings.Strip | interactive_review.py:64 | `s.strip(chars)`: drops the longest prefix, then the longest suffix of what is left, made of characters of the set; the result is never longer than the input and, when non-empty, neither starts nor ends with one of those characters |
| PyStrings.StripWs | interactive_review.py:62-64 | `s.strip()`: `Strip` with the whitespace characters |
| PyStrings.StripFound | interactive_review.py:62-64 | `strip` meets the reference definition: the removed prefix and suffix are drawn from the character set, and the kept text neither starts nor ends with one of them |
| PyStrings.StripUnique | interactive_review.py:62-64 | any slice meeting the reference definition is the one `strip` returns |
| PyStrings.StripAgain | interactive_review.py:64 | stripping again with a subset of the characters changes nothing |
| PyStrings.StripMiddle | interactive_review.py:64 | edge runs drawn from the stripped set do not change the result |
| PyStrings.StripAllIn | interactive_review.py:64 | a string made only of stripped characters strips to the empty string |
| GitHub.PullRequest.GetFiles | interactive_review.py:24 | returns the files the service lists, in its order, or `None` where reading the listing raises |
| GitHub.PullRequest.CreateIssueComment | interactive_review.py:78 | appends exactly one issue comment to the attempted comments; reports whether the call returned normally |
| GitHub.PullRequest.CreateReviewComment | interactive_review.py:88-93 | appends exactly one review comment with the given body, commit, path and position; reports whether the call returned normally |
| Gemini.Client.GenerateContent | interactive_review.py:56-59 | records exactly one request and returns the model's reply to it |
| FileFilter.IsReviewable | interactive_review.py:26 | a file is reviewable when its name ends with `.py`, `.js`, `.html`, `.css` or `.md`, case-sensitively |
| FileFilter.Copy | interactive_review.py:28-33 | the record kept for a file: its filename, patch, status and raw URL, and nothing else |
| FileFilter.Filter | interactive_review.py:24-34 | keeps at most as many records as files listed, each with a reviewable name |
| FileFilter.GetPrFiles | interactive_review.py:21-34 | the appending loop returns exactly `Filter` of the listed files; a listing that cannot be read gives no result |
| FileFilter.KeptPositionsAscending | interactive_review.py:24-26 | the positions of kept files are in range and strictly ascending, so the listing's order is kept |
| FileFilter.KeptPositionsExact | interactive_review.py:26 | a file is kept if and only if its name ends with one of the five extensions |
| FileFilter.FilterCopies | interactive_review.py:28-33 | the k-th record copies filename, patch, status and raw URL of the k-th kept file unchanged |
| FileFilter.FilterAppend | interactive_review.py:24-34 | filtering a listing in two parts is filtering each part, in order |
| FileFilter.ReviewableExamples | interactive_review.py:26 | matching is on the exact, case-sensitive suffix: `README.MD`, `build.pyc` and `py` are not kept |
| ReviewRequester.ExtractReview | interactive_review.py:62-66 | the response trimmed of whitespace; when that starts with "```json", further stripped of the characters `` ` ``, `j`, `s`, `o`, `n`, then of backticks, then of whitespace |
| ReviewRequester.Review | interactive_review.py:55-70 | what `generate_ai_review` returns: `None` exactly when the model call fails, else `ExtractReview` of the response |
| ReviewRequester.GenerateAiReview | interactive_review.py:55-70 | one request per call; the result is `None` exactly when the call fails, else the cleaned text |
| ReviewRequester.UnfencedKept | interactive_review.py:62-66 | without the "```json" marker the result is the whitespace-trimmed response, already trimmed |
| ReviewRequester.FencedResult | interactive_review.py:63-64 | with the marker, the backtick pass never removes anything |
| ReviewRequester.ExtractIsSlice | interactive_review.py:62-64 | the result is a slice of the response; the removed prefix is whitespace, then fence characters, then whitespace, and the suffix mirrors it; without the marker only whitespace is removed |
| ReviewRequester.WrappedBody | interactive_review.py:63-64 | "```json\n" + B + "\n```" comes back as B trimmed of whitespace, for every B |
| ReviewRequester.PlainFenceKept | interactive_review.py:63 | a plain "```" fence is returned unchanged |
| ReviewRequester.UpperCaseFenceKept | interactive_review.py:63 | an upper-case "```JSON" fence is returned unchanged |
| ReviewRequester.GluedFence | interactive_review.py:63-64 | with a fence glued to the body, the body's own edge runs of fence characters are removed too |
| ReviewRequester.GluedFenceEatsN | interactive_review.py:64 | a glued fence around a body starting with `n` (JSON `null`) eats that `n` |
| ReviewRequester.EmptyFence | interactive_review.py:63-64 | a fence around whitespace only yields the empty string, so nothing is posted |
| ReviewPoster.Truthy | interactive_review.py:81 | Python truthiness of the decoded value: a non-iterable truthy value, or an iterable with at least one item |
| ReviewPoster.FallbackBody | interactive_review.py:78 | the fallback comment's text: the fixed message naming the file, then a blank line, then the cleaned response |
| ReviewPoster.PostPlan | interactive_review.py:72-96 | decode error: one fallback issue comment, raising if and only if it is refused; another decoder exception or a non-iterable truthy value: nothing attempted, raises; falsy value: nothing attempted, no raise; iterable value: `EntryPosts` of its items, no raise |
| ReviewPoster.EntryPosts | interactive_review.py:85-96 | at most one attempt per item, each a review comment on the file and the head commit |
| ReviewPoster.PostReviewComments | interactive_review.py:72-96 | the attempted comments and the escaping exception are those of `PostPlan` for the decoded value |
| ReviewPoster.FallbackQuotes | interactive_review.py:78 | the fallback comment names the file and ends with the cleaned response it could not decode |
| ReviewPoster.IssueCommentIffParseError | interactive_review.py:74-79 | an issue comment is attempted if and only if decoding fails, and then it is the only comment |
| ReviewPoster.FalsyPostsNothing | interactive_review.py:81-83 | a falsy decoded value, an empty list included, attempts nothing and raises nothing |
| ReviewPoster.EntryPostsAllEntries | interactive_review.py:85-93 | for a list of entries, exactly one attempt per entry in list order, with the entry's comment and line number, the file's name and the head commit |
| ReviewPoster.EntryPostsAppend | interactive_review.py:85-96 | the attempts for two lists in sequence are those of each list |
| ReviewPoster.MalformedSkipped | interactive_review.py:86-96 | a malformed item is skipped without stopping the attempts for the items after it |
| ReviewPoster.CrashCauses | interactive_review.py:74-96 | the call raises if and only if the decoder raises something other than a decode error, the value cannot be iterated, or the fallback comment is rejected |
| ReviewPoster.ReviewRejectionsIgnored | interactive_review.py:95-96 | whether review comments are accepted changes nothing about what is attempted or whether the call raises |
| Driver.FileTrace | interactive_review.py:114-118 | one loop iteration: one model request for the file; when the review is `None` or empty, nothing else; otherwise the comments and the raise of `PostPlan` for the decoded review |
| Driver.Loop | interactive_review.py:110-118 | the main loop: the files' traces concatenated in order, stopping after the first file whose iteration raises |
| Driver.Plan | interactive_review.py:105-121 | a run over a readable listing: with no kept file, the explanatory comment and a stop, raising if and only if it is refused; otherwise `Loop` over the kept files, then the summary comment unless the loop raised, with the run completing if and only if the summary is accepted |
| Driver.RunPlan | interactive_review.py:103-121 | a whole run: a listing that cannot be read crashes with nothing attempted and nothing asked; otherwise `Plan` of the listed files |
| Driver.ReviewFile | interactive_review.py:110-118 | one loop iteration: one model request, and the comments of the review when it is non-empty |
| Driver.ReviewAll | interactive_review.py:110-118 | the loop's attempted comments and requests are those of `Loop` over the kept files |
| Driver.Run | interactive_review.py:103-121 | the whole run's comments, requests and ending are those of `RunPlan` for the listing: `Plan` of the listed files, or a crash with nothing done where the listing cannot be read |
| Driver.ListingFailure | interactive_review.py:103 | a listing that cannot be read crashes the run, and it is exactly the case where nothing is posted and nothing is asked |
| Driver.LoopStep | interactive_review.py:110-118 | one more file extends the loop's trace by that file's trace |
| Driver.LoopStopsAtCrash | interactive_review.py:110-118 | after an uncaught exception, later files change nothing |
| Driver.LoopAsked | interactive_review.py:110-114 | the files asked about are a prefix of the kept files, all of them unless an exception escaped |
| Driver.LoopCrashIsLastFile | interactive_review.py:110-118 | an exception escapes the loop if and only if the last file asked about raised |
| Driver.LoopAnchored | interactive_review.py:88-92 | every review comment of the loop is on the head commit and on a file asked about |
| Driver.LoopHasNoSummary | interactive_review.py:110-121 | the loop never posts the summary comment |
| Driver.FileTraceHasNoSummary | interactive_review.py:116-118 | one file's comments never include the summary comment |
| Driver.FallbackIsNotSummary | interactive_review.py:78 | a fallback comment is never the summary comment |
| Driver.AskedPrefix | interactive_review.py:103-118 | the model is asked about a prefix of the kept files, all of them unless the run crashes, and about none exactly when none is kept |
| Driver.NoReviewableFiles | interactive_review.py:105-107 | with no kept file, exactly one explanatory comment and no model request; the run stops early without error if and only if that is so and the comment is accepted |
| Driver.SummaryLast | interactive_review.py:121 | the summary is posted at most once and only as the last comment, and always when the run completes; it is posted if and only if some file is kept and the loop raises nothing, and then every kept file was asked about |
| Driver.CommentsAnchored | interactive_review.py:88-92 | every review comment is on the head commit and on a reviewable file the model was asked about |
| Driver.CrashCause | interactive_review.py:103-121 | a run over a readable listing crashes if and only if the explanatory or summary comment is rejected or the last file asked about raised |
| Driver.RunCompletes | interactive_review.py:103-121 | with issue comments accepted, no decoder exception other than a decode error, and every decoded value iterable or falsy, a run over a kept file completes and asks about every kept file |
| Driver.LoopNeverCrashes | interactive_review.py:110-118 | under the same conditions the loop raises nothing |
| Driver.ReviewRejectionsIrrelevant | interactive_review.py:95-96 | whether review comments are accepted does not change the run |
| Driver.LoopRejectionsIrrelevant | interactive_review.py:95-96 | the same for the loop alone |
| Driver.PostsNeedAReview | interactive_review.py:116-118 | each file is asked about once; it gets comments or raises only when the model returned text that is non-empty once cleaned |

## Left out

- Reading the environment variables and building the two clients, including `exit(1)` when that fails (interactive_review.py:6-19). This is start-up I/O.
- The prompt text and the model name (interactive_review.py:40-59). The model receives the kept-file record itself; the 200-word limit and the JSON schema are only asked of the model, never enforced.
- The internals of `json.loads`: the decoder is a parameter returning one of the five outcomes above. What makes an item a well-formed entry rests on the assumption above about the client library's type checks; that library is not part of this model.
- `print` logging, and the process exit code beyond the three endings `Completed`, `NothingToReview` and `Crashed`.
- Pagination of the file listing: the listing is a finite sequence, or a failure. A failure on a later page has the same effect as one on the first, because `get_pr_files` returns nothing either way.
- The HTTP calls themselves: each comment's acceptance and each model reply are given as functions of the request, and the listing's success as part of the pull request.
- Review comments record the model's `line_number` as the position; whether it lies in the diff is for the service to decide, through `accepts`.
- A second copy of the script under the workflows directory is byte-identical, and is not modelled separately.
