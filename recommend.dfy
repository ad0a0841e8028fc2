/** The `/recommend` handler without its web framework: the prompt check, the
    clamp of the requested count, up to three calls to the completion service
    with `safe_parse` on each reply, and the de-duplication of the books.
    The completion service is a parameter: `service(q, a)` is the reply to
    query `q` on attempt `a` (0, 1 or 2). */
module Recommend {
  import opened Wrappers
  import opened Json
  import opened Text
  import Extractor
  import Dedup

  /** `desired = max(1, min(count, 12))`. */
  function Desired(count: int): (d: nat)
    ensures 1 <= d <= 12
    ensures 1 <= count <= 12 ==> d == count
    ensures count < 1 ==> d == 1
    ensures count > 12 ==> d == 12
  {
    if count < 1 then 1 else if count > 12 then 12 else count
  }

  /** What the handler sends: the number of books asked for in the system
      prompt (`request_n = count + 4`) and the stripped user prompt. */
  datatype Query = Query(requestN: int, user: string)

  /** What one call to the completion service gives: the message content, a
      message without content, or an exception from the client. */
  datatype Reply = Content(text: string) | NoContent | CallFailed

  type Service = (Query, nat) -> Reply

  /** `safe_parse` as a function of the reply text; the handler uses
      `Extractor.Extract` with its JSON decoder. */
  type Parser = string -> Result<seq<JsonValue>, Extractor.ParseError>

  /** How the retry loop ends. */
  datatype Outcome = Got(books: seq<JsonValue>) | Exhausted | ServiceDown

  /** Whether attempt `a` ends the loop with books: its reply parses to a
      non-empty list. */
  predicate Succeeds(q: Query, service: Service, extract: Parser, a: nat) {
    var reply := service(q, a);
    reply.Content? && extract(reply.text).Ok? && extract(reply.text).value != []
  }

  /** The retry loop from attempt `a` on. A failed parse (including a reply
      without content, on which `safe_parse` raises) and an empty list both
      go on to the next attempt; a client exception leaves the loop at once.
      `books` is empty at the start of every attempt, since the loop breaks
      as soon as it is not. */
  function Retry(q: Query, service: Service, extract: Parser, a: nat): Outcome
    requires a <= 3
    decreases 3 - a
  {
    if a == 3 then Exhausted
    else if service(q, a).CallFailed? then ServiceDown
    else if Succeeds(q, service, extract, a) then Got(extract(service(q, a).text).value)
    else Retry(q, service, extract, a + 1)
  }

  /** The number of calls the retry loop makes from attempt `a` on. */
  function Calls(q: Query, service: Service, extract: Parser, a: nat): nat
    requires a <= 3
    decreases 3 - a
  {
    if a == 3 then 0
    else if service(q, a).CallFailed? || Succeeds(q, service, extract, a) then 1
    else 1 + Calls(q, service, extract, a + 1)
  }

  /** Why the handler raises, with the HTTP status it answers with. */
  datatype Cause = NoBooksExtracted | ServiceFailed | NotARecord
  datatype Failure = BadRequest | ServerError(cause: Cause)

  /** The request the handler makes for a prompt and a count. */
  function QueryFor(prompt: string, count: int): Query {
    Query(count + 4, Strip(prompt))
  }

  /** The handler's answer: status 400 for a blank prompt; status 500 when the
      service raises, when no attempt gives books, or when a record reached by
      the de-duplication is not a dict; otherwise the de-duplicated books. */
  function Respond(prompt: string, count: int, service: Service, extract: Parser)
    : Result<seq<JsonValue>, Failure>
  {
    if Strip(prompt) == [] then Err(BadRequest)
    else
      match Retry(QueryFor(prompt, count), service, extract, 0)
      case ServiceDown => Err(ServerError(ServiceFailed))
      case Exhausted => Err(ServerError(NoBooksExtracted))
      case Got(books) =>
        match Dedup.DedupResult(books, Desired(count), Dedup.KeyOf)
        case Err(_) => Err(ServerError(NotARecord))
        case Ok(uniq) => Ok(uniq)
  }

  /** The handler, with the queries it sent. `parse` is the JSON decoder; the
      ghost `extract` is `safe_parse` built on it, as its requires says. */
  method Recommend(prompt: string, count: int, service: Service, parse: string -> Option<JsonValue>,
                   ghost extract: Parser)
    returns (r: Result<seq<JsonValue>, Failure>, sent: seq<Query>)
    requires forall t {:trigger Extractor.Extract(t, parse)} :: extract(t) == Extractor.Extract(t, parse)
    ensures r == Respond(prompt, count, service, extract)
    ensures |sent| == if Strip(prompt) == [] then 0 else Calls(QueryFor(prompt, count), service, extract, 0)
    ensures forall i | 0 <= i < |sent| :: sent[i] == QueryFor(prompt, count)
  {
    var userQ := Strip(prompt);
    sent := [];
    if userQ == [] {
      return Err(BadRequest), sent;
    }
    var desired, requestN := Desired(count), count + 4;
    var q := Query(requestN, userQ);
    var books: seq<JsonValue> := [];
    var attempt := 0;
    while attempt < 3
      invariant 0 <= attempt <= 3 && books == []
      invariant Retry(q, service, extract, attempt) == Retry(q, service, extract, 0)
      invariant |sent| + Calls(q, service, extract, attempt) == Calls(q, service, extract, 0)
      invariant forall i | 0 <= i < |sent| :: sent[i] == q
    {
      var reply := service(q, attempt);
      sent := sent + [q];
      if reply.CallFailed? {
        return Err(ServerError(ServiceFailed)), sent;
      }
      if reply.NoContent? {
        attempt := attempt + 1;
        continue;
      }
      var parsed := Extractor.SafeParse(reply.text, parse);
      if parsed.Err? {
        attempt := attempt + 1;
        continue;
      }
      if parsed.value != [] {
        books := parsed.value;
        break;
      }
      attempt := attempt + 1;
    }
    if books == [] {
      return Err(ServerError(NoBooksExtracted)), sent;
    }
    var uniq := Dedup.Dedup(books, desired, Dedup.KeyOf);
    if uniq.Err? {
      return Err(ServerError(NotARecord)), sent;
    }
    return Ok(uniq.value), sent;
  }

  // ---------------------------------------------------------------------------
  // Properties

  /** A blank prompt is rejected with status 400 before any call is made. */
  lemma BlankPromptRejected(prompt: string, count: int, service: Service, extract: Parser)
    requires forall i | 0 <= i < |prompt| :: IsSpace(prompt[i])
    ensures Respond(prompt, count, service, extract) == Err(BadRequest)
  {
  }

  /** The retry loop makes at least one and at most three calls. */
  lemma {:induction false} CallsBounded(q: Query, service: Service, extract: Parser, a: nat)
    requires a < 3
    ensures 1 <= Calls(q, service, extract, a) <= 3 - a
    decreases 3 - a
  {
    if !(service(q, a).CallFailed? || Succeeds(q, service, extract, a)) && a + 1 < 3 {
      CallsBounded(q, service, extract, a + 1);
    }
  }

  /** The loop gets books exactly from the first attempt that parses to a
      non-empty list, provided no earlier call raised. */
  lemma {:induction false} RetryGotIff(q: Query, service: Service, extract: Parser, a: nat)
    requires a <= 3
    ensures Retry(q, service, extract, a).Got? <==>
      exists k | a <= k < 3 :: Succeeds(q, service, extract, k) && !service(q, k).CallFailed?
        && forall j | a <= j < k :: !Succeeds(q, service, extract, j) && !service(q, j).CallFailed?
    decreases 3 - a
  {
    if a < 3 {
      RetryGotIff(q, service, extract, a + 1);
      if Retry(q, service, extract, a).Got? && !Succeeds(q, service, extract, a) {
        var k :| a + 1 <= k < 3 && Succeeds(q, service, extract, k) && !service(q, k).CallFailed?
          && forall j | a + 1 <= j < k :: !Succeeds(q, service, extract, j) && !service(q, j).CallFailed?;
        assert forall j | a <= j < k :: !Succeeds(q, service, extract, j) && !service(q, j).CallFailed?;
      }
    }
  }

  /** When attempt `k` is the first from `a` on to give books and no call
      before it raised, the loop returns that attempt's books after
      `k - a + 1` calls. */
  lemma {:induction false} RetryFirstSuccessFrom(q: Query, service: Service, extract: Parser, a: nat, k: nat)
    requires a <= k < 3
    requires Succeeds(q, service, extract, k) && !service(q, k).CallFailed?
    requires forall j | a <= j < k :: !Succeeds(q, service, extract, j) && !service(q, j).CallFailed?
    ensures Retry(q, service, extract, a) == Got(extract(service(q, k).text).value)
    ensures Calls(q, service, extract, a) == k - a + 1
    decreases k - a
  {
    if a < k {
      RetryFirstSuccessFrom(q, service, extract, a + 1, k);
    }
  }

  /** The whole loop: the first attempt to give books, with no earlier call
      raising, decides the outcome, after `k + 1` calls. */
  lemma RetryFirstSuccess(q: Query, service: Service, extract: Parser, k: nat)
    requires k < 3
    requires Succeeds(q, service, extract, k) && !service(q, k).CallFailed?
    requires forall j | 0 <= j < k :: !Succeeds(q, service, extract, j) && !service(q, j).CallFailed?
    ensures Retry(q, service, extract, 0) == Got(extract(service(q, k).text).value)
    ensures Calls(q, service, extract, 0) == k + 1
  {
    RetryFirstSuccessFrom(q, service, extract, 0, k);
  }

  /** A reply without content, one that `safe_parse` rejects, or one that
      parses to no books, moves the loop on to the next attempt. */
  lemma MovesOn(q: Query, service: Service, extract: Parser, a: nat)
    requires a < 3 && !service(q, a).CallFailed?
    requires service(q, a).NoContent? || extract(service(q, a).text).Err? || extract(service(q, a).text) == Ok([])
    ensures Retry(q, service, extract, a) == Retry(q, service, extract, a + 1)
    ensures Calls(q, service, extract, a) == 1 + Calls(q, service, extract, a + 1)
  {
  }

  /** The loop gives up only when none of the three attempts yields books and
      none of the calls raises. */
  lemma {:induction false} ExhaustedIff(q: Query, service: Service, extract: Parser, a: nat)
    requires a <= 3
    ensures Retry(q, service, extract, a) == Exhausted <==>
      forall k | a <= k < 3 :: !Succeeds(q, service, extract, k) && !service(q, k).CallFailed?
    decreases 3 - a
  {
    if a < 3 {
      ExhaustedIff(q, service, extract, a + 1);
    }
  }

  /** A client exception is not retried. */
  lemma FailedCallNotRetried(prompt: string, count: int, service: Service, extract: Parser)
    requires Strip(prompt) != [] && service(QueryFor(prompt, count), 0).CallFailed?
    ensures Respond(prompt, count, service, extract) == Err(ServerError(ServiceFailed))
    ensures Calls(QueryFor(prompt, count), service, extract, 0) == 1
  {
  }

  /** A first reply that parses to books is used with one call. */
  lemma FirstReplyUsed(prompt: string, count: int, service: Service, extract: Parser)
    requires Strip(prompt) != [] && Succeeds(QueryFor(prompt, count), service, extract, 0)
    ensures var books := extract(service(QueryFor(prompt, count), 0).text).value;
      Respond(prompt, count, service, extract) ==
        match Dedup.DedupResult(books, Desired(count), Dedup.KeyOf)
        case Err(_) => Err(ServerError(NotARecord))
        case Ok(uniq) => Ok(uniq)
    ensures Calls(QueryFor(prompt, count), service, extract, 0) == 1
  {
  }

  /** A successful answer holds between one and `desired` books, with distinct keys. */
  lemma {:induction false} AnswerBounds(prompt: string, count: int, service: Service, extract: Parser,
                                        uniq: seq<JsonValue>)
    requires Respond(prompt, count, service, extract) == Ok(uniq)
    ensures 1 <= |uniq| <= Desired(count)
    ensures forall a, b | 0 <= a < b < |uniq| :: Dedup.KeyOf(uniq[a]) != Dedup.KeyOf(uniq[b])
  {
    var q := QueryFor(prompt, count);
    RetryGotIff(q, service, extract, 0);
    var books := Retry(q, service, extract, 0).books;
    GotNonEmpty(q, service, extract, 0);
    Dedup.DedupBounds(books, Desired(count), Dedup.KeyOf, uniq);
    Dedup.FirstSeenKeys(books, Dedup.KeyOf);
    assert books[0] in books;
    assert Dedup.KeyOf(books[0]) in Dedup.KeysOf(books, Dedup.KeyOf);
  }

  lemma {:induction false} GotNonEmpty(q: Query, service: Service, extract: Parser, a: nat)
    requires a <= 3 && Retry(q, service, extract, a).Got?
    ensures Retry(q, service, extract, a).books != []
    decreases 3 - a
  {
    if a < 3 && !service(q, a).CallFailed? && !Succeeds(q, service, extract, a) {
      GotNonEmpty(q, service, extract, a + 1);
    }
  }
}
