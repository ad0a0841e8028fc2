# ReadingTree book recommender: the reply-cleaning pipeline

The service answers `POST /recommend` by asking a chat-completion model for
book suggestions. The model's text is unreliable, and the service turns it
into a bounded, de-duplicated list of `{title, author, reason}` records. This
project models that pipeline in Dafny and proves properties of it:

- **Text repair** (`fix_missing_commas`, module `Repair`). Two regular-expression
  substitutions, applied in this order:
  - `}\s*{` becomes `},{`;
  - `,\s*]` becomes `]`.

  Each is written as a left-to-right scanner that replaces the leftmost
  non-overlapping matches.
- **Loose extraction** (`parse_loose_books`, module `Loose`). `LOOSE_RE.findall`
  is modelled as an explicit matcher for that one pattern:
  - the lazy fillers backtrack in the engine's order;
  - keys are matched ignoring case;
  - the scan is leftmost and non-overlapping.
- **`safe_parse`** (module `Extractor`). Three decoding strategies are tried in order:
  - the reply;
  - the repaired reply;
  - the repaired largest `{…}` block.

  The first strategy whose result is a dict with a list under `"books"` wins.
  If none does, the loose records are used, and with no loose records the
  call raises. Also in this module:
  - `Extract` is the reference function;
  - `SafeParse` is the loop over the strategies, proved equal to it.
- **De-duplication** (module `Dedup`). Records are keyed by
  `f"{b.get('title')}|{b.get('author')}"`. The first record of each key is kept,
  in order, up to `desired` records. The method `Dedup.Dedup` is the loop, with
  its `seen` set. `DedupResult` is the reference it is proved equal to.
- **The handler** (module `Recommend`):
  - the prompt check;
  - the clamp `desired = max(1, min(count, 12))`;
  - `request_n = count + 4`;
  - up to three calls to the completion service, stopping at the first reply
    that parses to a non-empty list;
  - the mapping of every failure to status 400 or 500.

  `Recommend.Recommend` is the imperative handler. `Recommend.Respond` is the
  reference function; the handler returns exactly its value, plus the list of
  queries it sent.

Two parts of the system are parameters, not code:

- **The JSON decoder** `json.loads`: `parse(x)` is `Some(v)` when it returns
  `v`, and `None` when it raises.
- **The completion service**: `service(q, a)` is the reply to query `q` on
  attempt `a`. A reply is one of:
  - the message content;
  - `NoContent`: a message whose content is `None`. `safe_parse` then raises
    inside the loose scan, so the attempt counts as a parse failure;
  - `CallFailed`: the client raised. That leaves the loop and gives status 500.

The decoded values are the `Json.JsonValue` datatype. An object keeps its
members as written, repeated keys included. What the decoder makes of them is
defined beside it:
- `Json.Get` is `dict.get`: it gives the value of the last member with the key;
- `Json.Dict` is the dict the decoder builds: each key once, where it first
  appears, with the value of its last member.

Where the key text prints a value, it prints it the way Python's `str()` does
(`Json.Format`). An object nested in a title prints as its `Dict`.

`safe_parse` is a Python function, so the handler's contracts are stated over
a ghost `extract` parameter. The method's precondition ties it to
`Extractor.Extract` with the given decoder. `Dedup.Dedup` takes its key
function the same way.

## Model

| member | source | states |
|---|---|---|
| Text.Strip | huggingface_server/main.py:80 | the stripped prompt is the input minus a leading and a trailing whitespace run; it starts and ends with non-whitespace; it is empty exactly when the prompt is all whitespace |
| Json.Get | huggingface_server/main.py:53 | `dict.get` on a decoded object; `GetIsLastBinding` states what it finds |
| Json.Dict | huggingface_server/main.py:45-47 | the dict `json.loads` builds from an object's members; `DictIsDecoded` states its keys and values |
| Json.Repr | huggingface_server/main.py:119 | `repr()` of a value nested in a title or an author; `ReprOfObject` and `ReprSameDict` state that an object prints as its decoded dict |
| Json.Format | huggingface_server/main.py:119 | the text an f-string placeholder prints for `b.get(k)`: `None` for a missing key or `null`, a string as it is, anything else as `Repr`; `Dedup.KeyOfSameFields`, `Dedup.KeyOfIdentifies`, `Dedup.RepeatedKeyTitlesCollide` and `Dedup.KeySeparatorAmbiguity` state what this means for the key |
| Json.GetIsLastBinding | huggingface_server/main.py:53 | `dict.get` finds nothing exactly when no member has the key; otherwise it gives the value of the last member with that key |
| Json.KeyPositions | huggingface_server/main.py:45-47 | the positions at which the decoder's dict gets its keys: each is the first member with its key, they increase, and every member's key is among them |
| Json.DictIsDecoded | huggingface_server/main.py:45-47 | the decoded dict gives each key the value `dict.get` finds, holds no key twice, and holds every key of the object |
| Json.ReprSameDict | huggingface_server/main.py:119 | two objects that decode to the same dict print the same text |
| Json.RepeatedKeyDict | huggingface_server/main.py:45-47 | `{"a":1,"a":2}` decodes to the same dict as `{"a":2}` |
| Repair.Glue | huggingface_server/main.py:30 | `OBJ_GLUE.sub('},{', s)` as a left-to-right scan; `GlueSplit` together with `GlueOfMatch` and `GlueFixesGlueFree` determines it on every text |
| Repair.Tail | huggingface_server/main.py:31 | `ARR_TAIL.sub(']', s)` as a left-to-right scan; `TailSplit` together with `TailOfMatch` and `TailFixesTailFree` determines it on every text |
| Repair.Fix | huggingface_server/main.py:29-32 | the glue step, then the tail step; `FixSplit`, `FixKeepsSkeleton` and `FixIdentityOnCleanText` state its properties |
| Repair.GlueLeavesNoGlue | huggingface_server/main.py:30 | after the glue step no `}\s*{` occurrence is left anywhere in the text |
| Repair.GlueFixesGlueFree | huggingface_server/main.py:30 | text without a `}\s*{` occurrence passes through the glue step unchanged |
| Repair.GlueUnchangedIff | huggingface_server/main.py:30 | the glue step leaves the text as it is if and only if the text holds no `}\s*{` occurrence |
| Repair.GlueIdempotent | huggingface_server/main.py:30 | applying the glue step twice gives the same text as applying it once |
| Repair.GlueKeepsSkeleton | huggingface_server/main.py:30 | the glue step keeps every character other than whitespace and commas, in order |
| Repair.TailDeletesOnly | huggingface_server/main.py:31 | the tail step only deletes characters: its output is a subsequence of its input |
| Repair.TailKeepsSkeleton | huggingface_server/main.py:31 | the tail step removes only commas and whitespace; every other character stays, in order |
| Repair.TailFixesTailFree | huggingface_server/main.py:31 | text without a `,\s*]` occurrence passes through the tail step unchanged |
| Repair.TailUnchangedIff | huggingface_server/main.py:31 | the tail step changes the text if and only if it holds a `,\s*]` occurrence, and then the text gets strictly shorter |
| Repair.TailNotIdempotent | huggingface_server/main.py:18 | the tail step is not idempotent: `,,]` becomes `,]`, which a second pass turns into `]` |
| Repair.FixKeepsSkeleton | huggingface_server/main.py:29-32 | `fix_missing_commas` (glue step, then tail step) keeps every character other than whitespace and commas, in order |
| Repair.TailSplit | huggingface_server/main.py:31 | the tail step rewrites each part of a text on its own whenever no `,\s*]` match starts before the cut and ends after it, so each match is rewritten where it stands and every other character is copied |
| Repair.GlueSplit | huggingface_server/main.py:30 | the glue step rewrites each part of a text on its own whenever no `}\s*{` match starts before the cut and ends after it, so each match is rewritten where it stands and every other character is copied |
| Repair.TailCutAfterPlain | huggingface_server/main.py:31 | no `,\s*]` match straddles a cut after a character other than a comma or whitespace |
| Repair.GlueCutAfterPlain | huggingface_server/main.py:30 | no `}\s*{` match straddles a cut after a character other than `}` or whitespace |
| Repair.TailAfterComma | huggingface_server/main.py:31 | `, ,]` becomes `, ]`: a match right after a comma is rewritten and the comma before it is kept |
| Repair.GlueAfterBrace | huggingface_server/main.py:30 | `}}{` becomes `}},{`: a match right after a `}` is rewritten and the `}` before it is kept |
| Repair.GlueAfterSpace | huggingface_server/main.py:30 | `} }{` becomes `} },{`: only the match is rewritten, not the `}` and space before it |
| Repair.GlueKeepsLast | huggingface_server/main.py:30 | the glue step keeps the last character of a text |
| Repair.FixSplit | huggingface_server/main.py:29-32 | `fix_missing_commas` rewrites each part of a text on its own when the first part ends in a character other than `}`, `,` and whitespace |
| Repair.TailOfMatch | huggingface_server/main.py:31 | one `,\s*]` match, whatever its whitespace, becomes `]`; a lone comma stays |
| Repair.GlueOfMatch | huggingface_server/main.py:30 | one `}\s*{` match, whatever its whitespace, becomes `},{`; a lone `}` stays |
| Repair.FixIdentityOnCleanText | huggingface_server/main.py:29-32 | text holding neither defect is returned unchanged by `fix_missing_commas` |
| Loose.Field | huggingface_server/main.py:23 | a matched field's captured value is non-empty and free of `"`, and the match ends just after the value's closing quote |
| Loose.Rest | huggingface_server/main.py:23-25 | the rest of the pattern after `{` captures exactly the groups still to come, all clean, and ends just after a `}` |
| Loose.MatchAt | huggingface_server/main.py:22-27 | a match at `p` starts with `{` at `p`, ends just after a `}`, and its three groups are non-empty and free of `"` |
| Loose.Scan | huggingface_server/main.py:36 | every reported hit is a match of the pattern at its start; the hits are in left-to-right order and do not overlap |
| Loose.ScanIsLeftmost | huggingface_server/main.py:36 | every position where the pattern matches is either the start of a reported match or lies inside an earlier one, so the reported matches are the leftmost non-overlapping ones |
| Loose.LooseBooks | huggingface_server/main.py:34-36 | every field of every loose record is non-empty and contains no `"` |
| Loose.LooseRecoversSnippet | huggingface_server/main.py:22-27 | a record written as `{"title":"…","author":"…","reason":"…"}`, with its keys in any letter case and no other `{` around it, is recovered as exactly that one record |
| Loose.DuneInProse | huggingface_server/main.py:22-27 | a record embedded in prose (`Try {…} today`) is found with its three values |
| Loose.UpperCaseKeys | huggingface_server/main.py:26 | keys spelled `TITLE`, `Author` and `REASON` are matched under IGNORECASE |
| Extractor.BlockSpan | huggingface_server/main.py:19 | `\{[\s\S]*\}` has no match if and only if no `{` is followed by a `}`; when it matches, the span runs from the leftmost `{` to the last `}` |
| Extractor.Block | huggingface_server/main.py:47 | there is no block exactly when no `{` is followed by a `}`; otherwise the block is the text from the first `{` to the last `}` |
| Extractor.BlockIsSpan | huggingface_server/main.py:47 | any span from the first `{` to a last `}` after it is the block the search returns |
| Extractor.StepInput | huggingface_server/main.py:44-49 | strategy 1 gives the decoder the reply and strategy 2 the repaired reply; strategy 3 gives the repaired block from the first `{` to the last `}` when there is one, and raises otherwise |
| Extractor.Accept | huggingface_server/main.py:53-54 | a decoded value is accepted if and only if it is a dict whose `"books"` member is a list, and then that list is returned |
| Extractor.Attempt | huggingface_server/main.py:51-56 | the outcome of one strategy inside the `try`: its books when the decode succeeds and is accepted, `None` when it raises or is not accepted; `ExtractJsonCase` and `BlockWins` state what this means for the result |
| Extractor.FirstFrom | huggingface_server/main.py:44-56 | the result is the outcome of some strategy from `k` on whose earlier strategies all failed; it is `None` exactly when all fail |
| Extractor.BookJson | huggingface_server/main.py:35 | the dict built from a loose record has `title`, `author` and `reason` bound to its three values |
| Extractor.LooseJson | huggingface_server/main.py:34-36 | one dict per match of the loose pattern, in order, whose `title`, `author` and `reason` are the match's three groups |
| Extractor.Extract | huggingface_server/main.py:38-62 | the reference definition of `safe_parse`; `ExtractFailsIff`, `ExtractSources`, `EmptyOnlyFromJson` and `WithoutJson` state its properties |
| Extractor.SafeParse | huggingface_server/main.py:38-62 | the loop over the strategies returns exactly what `Extract`, the reference definition of `safe_parse`, gives |
| Extractor.DirectWins | huggingface_server/main.py:45 | a reply that already decodes to an accepted object is returned as decoded, and no later strategy counts |
| Extractor.ExtractJsonCase | huggingface_server/main.py:44-56 | the books of strategy `k` are returned whenever every earlier strategy failed |
| Extractor.RepairWins | huggingface_server/main.py:46 | when the direct decode is not accepted but the repaired reply's is, the repaired books are returned |
| Extractor.BlockWins | huggingface_server/main.py:47-54 | when the reply and its repair are not accepted but the repaired text from the first `{` to the last `}` is, its books are returned |
| Extractor.NoBlockNoThird | huggingface_server/main.py:47-49 | without a `{` followed by a `}`, the third strategy fails and the decoder is not given a block |
| Extractor.ExtractFailsIff | huggingface_server/main.py:58-62 | `safe_parse` raises if and only if all three strategies fail and the loose scan finds nothing |
| Extractor.ExtractSources | huggingface_server/main.py:38-62 | a result is either the books of the first accepted strategy, or, when none is accepted, the non-empty loose records |
| Extractor.EmptyOnlyFromJson | huggingface_server/main.py:58-61 | an empty list is returned only when some strategy decoded an object with an empty `"books"` list |
| Extractor.WithoutJson | huggingface_server/main.py:58-62 | with a decoder that always raises, the result is the loose records, or an error when there are none |
| Dedup.KeyOf | huggingface_server/main.py:119 | a record has a key exactly when it is a dict; any other element makes `b.get` raise |
| Dedup.KeyOfSameFields | huggingface_server/main.py:119-120 | dicts with the same title and author get the same key, whatever their other members |
| Dedup.KeyOfIdentifies | huggingface_server/main.py:119-120 | for string titles without a vertical bar, equal keys imply equal titles and equal authors |
| Dedup.RepeatedKeyTitlesCollide | huggingface_server/main.py:119-120 | a title `{"a":1,"a":2}` and a title `{"a":2}` with the same author give the same key, so the second record is dropped |
| Dedup.DedupResult | huggingface_server/main.py:116-126 | the reference definition of the de-duplication loop; `DedupBounds`, `DedupFirstOfKey`, `DedupKeepsOrder`, `DedupKeepsAllKeys` and `DedupFailsIff` state its properties |
| Dedup.Dedup | huggingface_server/main.py:116-126 | the loop with its `seen` set returns exactly `DedupResult`: an error when it reaches a non-dict before the cap, else the first `desired` first-seen records |
| Dedup.FirstSeenKeys | huggingface_server/main.py:117-122 | the first-seen records have exactly the keys of the input, one record per key |
| Dedup.FirstSeenDistinct | huggingface_server/main.py:120-122 | no two first-seen records share a key |
| Dedup.FirstSeenIsFirst | huggingface_server/main.py:120-122 | each first-seen record is the first element of the input with its key |
| Dedup.FirstSeenIndices | huggingface_server/main.py:118-122 | the first-seen records sit at strictly increasing positions of the input |
| Dedup.DedupBounds | huggingface_server/main.py:117-124 | a successful result has at most `desired` records with pairwise distinct keys; it is shorter only when the input has fewer distinct keys |
| Dedup.DedupFirstOfKey | huggingface_server/main.py:118-122 | every kept record is the first element of the books with its key |
| Dedup.DedupKeepsOrder | huggingface_server/main.py:117-124 | a successful result is an order-preserving subsequence of the books |
| Dedup.DedupKeepsAllKeys | huggingface_server/main.py:117-124 | when the cap is not reached, every distinct key of the books is represented |
| Dedup.DedupFailsIff | huggingface_server/main.py:118-124 | the loop raises if and only if it reaches a non-dict element while fewer than `desired` records are kept |
| Dedup.KeySeparatorAmbiguity | huggingface_server/main.py:119 | two different records, one with a vertical bar at the end of its title and one with it at the start of its author, can get the same key, so the second is dropped |
| Recommend.Desired | huggingface_server/main.py:83 | `1 <= desired <= 12`; `desired == count` when `1 <= count <= 12`; 1 below that range and 12 above it |
| Recommend.QueryFor | huggingface_server/main.py:80-83 | the query the handler sends: `request_n = count + 4` and the stripped prompt |
| Recommend.Retry | huggingface_server/main.py:91-114 | the outcome of the retry loop from an attempt on; `RetryGotIff`, `RetryFirstSuccess`, `ExhaustedIff`, `MovesOn` and `GotNonEmpty` state its properties |
| Recommend.Calls | huggingface_server/main.py:93-111 | the number of service calls the retry loop makes from an attempt on; `CallsBounded`, `RetryFirstSuccess` and `MovesOn` state it |
| Recommend.Respond | huggingface_server/main.py:79-130 | the reference definition of the handler's answer; `BlankPromptRejected`, `FailedCallNotRetried`, `FirstReplyUsed` and `AnswerBounds` state its properties |
| Recommend.Recommend | huggingface_server/main.py:79-130 | the handler returns exactly `Respond`; it sends no query for a blank prompt, otherwise as many as the retry loop calls for; every query carries `count + 4` and the stripped prompt |
| Recommend.BlankPromptRejected | huggingface_server/main.py:80-82 | a prompt that is all whitespace is answered with status 400 |
| Recommend.CallsBounded | huggingface_server/main.py:93 | the retry loop makes at least one and at most three service calls |
| Recommend.MovesOn | huggingface_server/main.py:105-111 | a reply with no content, one `safe_parse` rejects, or one that parses to no books, moves on to the next attempt after one call |
| Recommend.RetryGotIff | huggingface_server/main.py:105-111 | the loop ends with books if and only if some attempt parses to a non-empty list, and no attempt before it succeeded or raised |
| Recommend.RetryFirstSuccessFrom | huggingface_server/main.py:93-111 | from attempt `a` on, when attempt `k` is the first to give books and no earlier call raised, the loop returns those books after `k - a + 1` calls |
| Recommend.RetryFirstSuccess | huggingface_server/main.py:93-111 | when attempt `k` is the first to give books and no earlier call raised, the loop returns those books after `k + 1` calls |
| Recommend.ExhaustedIff | huggingface_server/main.py:113-114 | the loop ends without books if and only if none of the three attempts parses to a non-empty list and no call raises |
| Recommend.GotNonEmpty | huggingface_server/main.py:110-111 | the books the loop ends with are never empty |
| Recommend.FailedCallNotRetried | huggingface_server/main.py:128-130 | a client exception on the first call gives status 500 after exactly one call |
| Recommend.FirstReplyUsed | huggingface_server/main.py:110-111 | a first reply that parses to books is used, with one call, and the answer is its de-duplication |
| Recommend.AnswerBounds | huggingface_server/main.py:113-126 | a successful answer holds between 1 and `desired` books with pairwise distinct keys; there is no empty success |

## Left out

- The web framework is not modelled: FastAPI routing, the `Prompt` model and its default count, CORS, the rate limiter and `/healthz` (`huggingface_server/main.py:65-79` and `132-135`).
- The completion client call (`huggingface_server/main.py:94-104`) is a network call. It is the `service` parameter. The system prompt text built at lines 85-89 is not modelled beyond the number `request_n` it carries.
- The `OPENAI_API_KEY` check at import time (`huggingface_server/main.py:11-14`) is process configuration and is not modelled.
- Logging (`huggingface_server/main.py:108`, `129`) has side effects only and is not modelled.
- `json.loads` is the `parse` parameter, not a verified parser. The model does not tie the decoder to the repaired text.
- Numbers are integers only; floats (and their `str()` text in a key) are not modelled.
- `Json.Repr` writes a string nested inside a list or dict as `'…'` with its characters as they are. Python's `repr` does more, and none of it is modelled:
  - it switches to `"…"` quotes when the string holds a `'` and no `"`;
  - it escapes backslashes and the quote it uses;
  - it escapes control and non-printable characters (`\n`, `\x07`, `\u200b`).

  A title or author whose nested strings hold such characters therefore gets a key text that differs from Python's.
- The exception text in the 500 detail is not modelled. Only the cause (`ServiceFailed`, `NoBooksExtracted`, `NotARecord`) is.
- `Extractor.SafeParse` requires nothing of the decoder. A decoder that loops or crashes is outside the model.
- `Loose`: only the one pattern `LOOSE_RE` is modelled, not general regular-expression semantics. The fields must come in the order title, author, reason, as the pattern demands.
- `Loose.LetterMatches`: only the case equivalences Python applies to the letters of the three keys are modelled. These are ASCII upper and lower case, plus dotless and dotted i and long s.
- `Recommend.Recommend` and `Dedup.Dedup` take their `safe_parse` and key functions as ghost parameters. The callers pass `Extractor.Extract` with the decoder, and `Dedup.KeyOf`.
