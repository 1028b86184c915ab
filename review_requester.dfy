/**
 * `generate_ai_review`: ask the model about one changed file and clean up its
 * answer. The answer is trimmed of whitespace; when it then starts with
 * "```json" it goes through `strip("```json")` (a character-set strip over
 * backtick, j, s, o and n), `strip("```")` and `strip()`. A failed call, or a
 * response without text, yields `None`.
 */
module ReviewRequester {
  import opened Wrappers
  import opened PyStrings
  import opened Gemini
  import opened FileFilter

  /** The marker tested with `startswith`. */
  const JsonFence: string := "```json"

  /** The characters `strip("```json")` removes. */
  const FenceChars: set<char> := {'`', 'j', 's', 'o', 'n'}

  /** The text `generate_ai_review` returns for a model response. */
  function ExtractReview(raw: string): string {
    var text := StripWs(raw);
    if StartsWith(text, JsonFence) then StripWs(Strip(Strip(text, FenceChars), {'`'})) else text
  }

  /** The value `generate_ai_review` returns for a reply. */
  function Review(reply: Reply): (r: Option<string>)
    ensures r.None? <==> reply.Failed?
  {
    match reply
    case Failed => None
    case Text(t) => Some(ExtractReview(t))
  }

  /** `generate_ai_review(file_data)`: one request per call. The strip chain
      is written out step by step as the script runs it; the postcondition
      ties the result to `ExtractReview`, where the lemmas below are stated. */
  method GenerateAiReview(ai: Client<ChangedFile>, fileData: ChangedFile) returns (review: Option<string>)
    modifies ai
    ensures ai.requests == old(ai.requests) + [fileData]
    ensures review == Review(ai.respond(fileData))
    ensures ai.respond(fileData).Failed? <==> review.None?
  {
    var response := ai.GenerateContent(fileData);
    match response {
      case Failed =>
        review := None;
      case Text(t) =>
        var text := StripWs(t);
        if StartsWith(text, JsonFence) {
          text := StripWs(Strip(Strip(text, FenceChars), {'`'}));
        }
        review := Some(text);
    }
  }

  /** A trimmed response that does not start with "```json" is returned as
      trimmed: a plain "```" fence or an upper-case "```JSON" fence stays. */
  lemma UnfencedKept(raw: string)
    requires !StartsWith(StripWs(raw), JsonFence)
    ensures ExtractReview(raw) == StripWs(raw)
    ensures StripWs(ExtractReview(raw)) == ExtractReview(raw)
  {
    StripAgain(raw, Whitespace, Whitespace);
  }

  /** On a fenced response the backtick pass never removes anything: the
      character-set strip before it has already removed every edge backtick. */
  lemma FencedResult(raw: string)
    requires StartsWith(StripWs(raw), JsonFence)
    ensures ExtractReview(raw) == StripWs(Strip(StripWs(raw), FenceChars))
  {
    StripAgain(StripWs(raw), FenceChars, {'`'});
  }

  /** Only edge runs are removed: the result is a slice of the response whose
      removed prefix is whitespace, then fence characters, then whitespace, and
      likewise its removed suffix in mirror order; without the "```json" marker
      only whitespace is removed. */
  lemma {:induction false} ExtractIsSlice(raw: string)
    returns (i1: nat, i2: nat, i3: nat, j3: nat, j2: nat, j1: nat)
    ensures i1 <= i2 <= i3 <= j3 <= j2 <= j1 <= |raw|
    ensures ExtractReview(raw) == raw[i3..j3]
    ensures forall k | 0 <= k < i1 :: raw[k] in Whitespace
    ensures forall k | i1 <= k < i2 :: raw[k] in FenceChars
    ensures forall k | i2 <= k < i3 :: raw[k] in Whitespace
    ensures forall k | j3 <= k < j2 :: raw[k] in Whitespace
    ensures forall k | j2 <= k < j1 :: raw[k] in FenceChars
    ensures forall k | j1 <= k < |raw| :: raw[k] in Whitespace
    ensures !StartsWith(StripWs(raw), JsonFence) ==> i1 == i2 == i3 && j3 == j2 == j1
  {
    var a, b := StripFound(raw, Whitespace);
    i1, j1 := a, b;
    if StartsWith(raw[a..b], JsonFence) {
      FencedResult(raw);
      i2, i3, j3, j2 := StripTwice(raw, a, b, FenceChars, Whitespace);
    } else {
      i2, i3, j3, j2 := a, a, b, b;
    }
  }

  /** Where `raw[a..b]` is stripped of `fc` and then of `ws`, the result is a
      slice of `raw` bounded by runs of `fc` and then of `ws` on both sides. */
  lemma StripTwice(raw: string, a: nat, b: nat, fc: set<char>, ws: set<char>)
    returns (i2: nat, i3: nat, j3: nat, j2: nat)
    requires a <= b <= |raw|
    ensures a <= i2 <= i3 <= j3 <= j2 <= b
    ensures Strip(Strip(raw[a..b], fc), ws) == raw[i3..j3]
    ensures forall k | a <= k < i2 :: raw[k] in fc
    ensures forall k | i2 <= k < i3 :: raw[k] in ws
    ensures forall k | j3 <= k < j2 :: raw[k] in ws
    ensures forall k | j2 <= k < b :: raw[k] in fc
  {
    i2, j2 := StripOfSlice(raw, a, b, fc);
    i3, j3 := StripOfSlice(raw, i2, j2, ws);
  }

  /** A body wrapped as "```json\n" + body + "\n```" comes back as the body
      trimmed of whitespace, whatever the body is. */
  lemma WrappedBody(body: string)
    ensures ExtractReview("```json" + ("\n" + body + "\n") + "```") == StripWs(body)
  {
    var inner := "\n" + body + "\n";
    GluedFence(inner);
    StripUnique(inner, FenceChars, 0, |inner|);
    assert inner[0..|inner|] == inner;
    assert inner[1..|inner| - 1] == body;
    StripMiddle(inner, Whitespace, 1, |inner| - 1);
  }

  /** A plain "```" fence is never removed, whatever it wraps. */
  lemma PlainFenceKept(body: string)
    ensures ExtractReview("```\n" + body + "\n```") == "```\n" + body + "\n```"
  {
    var raw := "```\n" + body + "\n```";
    StripUnique(raw, Whitespace, 0, |raw|);
    assert raw[3] != JsonFence[3];
  }

  /** An upper-case "```JSON" fence is never removed either. */
  lemma UpperCaseFenceKept(body: string)
    ensures ExtractReview("```JSON\n" + body + "\n```") == "```JSON\n" + body + "\n```"
  {
    var raw := "```JSON\n" + body + "\n```";
    StripUnique(raw, Whitespace, 0, |raw|);
    assert raw[3] != JsonFence[3];
  }

  /** The strip is by character set, not by prefix: when the fence touches
      the body, the body's own edge runs of backtick, j, s, o and n go too. */
  lemma GluedFence(body: string)
    ensures ExtractReview("```json" + body + "```") == StripWs(Strip(body, FenceChars))
  {
    var raw := "```json" + body + "```";
    var n := |raw|;
    assert raw[0] == '`' && raw[n - 1] == '`';
    StripUnique(raw, Whitespace, 0, n);
    assert raw[0..n] == raw;
    assert StripWs(raw) == raw;
    assert StartsWith(raw, JsonFence) by { assert raw[..|JsonFence|] == JsonFence; }
    assert raw[7..n - 3] == body;
    StripMiddle(raw, FenceChars, 7, n - 3);
    StripAgain(raw, FenceChars, {'`'});
    assert ExtractReview(raw) == StripWs(Strip(Strip(raw, FenceChars), {'`'}));
  }

  /** So a fence glued to a body that starts with `n` (the JSON literal
      `null`, say) eats that `n`: "```jsonnull```" comes back as "ull". */
  lemma GluedFenceEatsN(rest: string)
    requires rest != [] && rest[0] !in FenceChars && rest[|rest| - 1] !in FenceChars
    requires rest[0] !in Whitespace && rest[|rest| - 1] !in Whitespace
    ensures ExtractReview("```json" + ("n" + rest) + "```") == rest
  {
    GluedFence("n" + rest);
    LeadingNStripped(rest);
    StripUnique(rest, Whitespace, 0, |rest|);
    assert rest[0..|rest|] == rest;
  }

  lemma LeadingNStripped(rest: string)
    requires rest != [] && rest[0] !in FenceChars && rest[|rest| - 1] !in FenceChars
    ensures Strip("n" + rest, FenceChars) == rest
  {
    var body := "n" + rest;
    assert body[1..|body|] == rest;
    StripUnique(body, FenceChars, 1, |body|);
  }

  /** A fence with nothing but whitespace inside comes back empty, so the
      driver posts nothing for it. */
  lemma EmptyFence(inside: string)
    requires forall k | 0 <= k < |inside| :: inside[k] in Whitespace
    ensures ExtractReview("```json" + inside + "```") == ""
  {
    GluedFence(inside);
    var i, j := StripFound(inside, FenceChars);
    var t := inside[i..j];
    forall k | 0 <= k < |t| ensures t[k] in Whitespace {
      assert t[k] == inside[i + k];
    }
    StripAllIn(t, Whitespace);
  }
}
