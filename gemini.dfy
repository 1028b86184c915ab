/**
 * The generative-model client: each request either fails (the call raises,
 * or the response carries no text) or yields a text. `respond` stands for the
 * service; `requests` records every request made, oldest first.
 */
module Gemini {

  datatype Reply = Failed | Text(text: string)

  class Client<Request> {
    const respond: Request -> Reply
    var requests: seq<Request>

    constructor (respond: Request -> Reply)
      ensures this.respond == respond && requests == []
    {
      this.respond := respond;
      requests := [];
    }

    /** `models.generate_content(…)` followed by reading `response.text`. */
    method GenerateContent(request: Request) returns (reply: Reply)
      modifies this
      ensures requests == old(requests) + [request]
      ensures reply == respond(request)
    {
      requests := requests + [request];
      reply := respond(request);
    }
  }
}
