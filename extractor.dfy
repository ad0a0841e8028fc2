/** `safe_parse`: the three decoding strategies tried in order, then the loose
    pattern as a last resort. The JSON decoder `json.loads` is a parameter:
    `parse(x)` is `Some(v)` when the decoder returns `v` and `None` when it
    raises. */
module Extractor {
  import opened Wrappers
  import opened Json
  import Repair
  import Loose

  // ---------------------------------------------------------------------------
  // The largest JSON block (`JSON_RE.search`)

  /** Position of the first `{` of `s`, or `|s|` when there is none. */
  function FirstOpen(s: string, i: nat): (r: nat)
    requires i <= |s|
    ensures i <= r <= |s|
    ensures forall k | i <= k < r :: s[k] != '{'
    ensures r < |s| ==> s[r] == '{'
    decreases |s| - i
  {
    if i == |s| || s[i] == '{' then i else FirstOpen(s, i + 1)
  }

  /** Position of the last `}` of `s[..n]`, or `-1` when there is none. */
  function LastClose(s: string, n: nat): (r: int)
    requires n <= |s|
    ensures -1 <= r < n
    ensures forall k | r < k < n :: s[k] != '}'
    ensures r >= 0 ==> s[r] == '}'
  {
    if n == 0 then -1 else if s[n - 1] == '}' then n - 1 else LastClose(s, n - 1)
  }

  /** Where `\{[\s\S]*\}` matches in `s`: from the leftmost `{` that has a `}`
      after it, greedily to the last `}`. */
  function BlockSpan(s: string): (r: Option<(nat, nat)>)
    ensures r.None? <==> forall a, b | 0 <= a < b < |s| :: !(s[a] == '{' && s[b] == '}')
    ensures r.Some? ==> r.value.0 < r.value.1 < |s| && s[r.value.0] == '{' && s[r.value.1] == '}'
    ensures r.Some? ==> forall k | 0 <= k < r.value.0 :: s[k] != '{'
    ensures r.Some? ==> forall k | r.value.1 < k < |s| :: s[k] != '}'
  {
    var i, j := FirstOpen(s, 0), LastClose(s, |s|);
    if i < j then Some((i, j as nat)) else None
  }

  /** `s[i..j + 1]` runs from the first `{` of `s` to its last `}`. */
  predicate IsBlock(s: string, i: nat, j: nat) {
    i < j < |s| && s[i] == '{' && s[j] == '}'
    && (forall k | 0 <= k < i :: s[k] != '{') && (forall k | j < k < |s| :: s[k] != '}')
  }

  /** The text `JSON_RE.search(s).group(0)`, when the search succeeds. */
  function Block(s: string): (r: Option<string>)
    ensures r.None? <==> forall a, b | 0 <= a < b < |s| :: !(s[a] == '{' && s[b] == '}')
    ensures r.Some? ==> exists i, j | 0 <= i < j < |s| :: r.value == s[i..j + 1] && IsBlock(s, i, j)
  {
    match BlockSpan(s)
    case None => None
    case Some((i, j)) =>
      assert IsBlock(s, i, j);
      Some(s[i..j + 1])
  }

  // ---------------------------------------------------------------------------
  // The three strategies

  /** What the decoder is given at strategy `k`: the reply itself, the repaired
      reply, and the repaired block. `None` is the `ValueError` strategy 3
      raises when there is no block. */
  function StepInput(content: string, k: nat): (r: Option<string>)
    requires k < 3
    ensures k == 0 ==> r == Some(content)
    ensures k == 1 ==> r == Some(Repair.Fix(content))
    ensures k == 2 ==> (r.Some? <==> Block(content).Some?)
    ensures k == 2 && r.Some? ==> exists i, j | 0 <= i < j < |content| ::
              r.value == Repair.Fix(content[i..j + 1]) && IsBlock(content, i, j)
  {
    if k == 0 then Some(content)
    else if k == 1 then Some(Repair.Fix(content))
    else match Block(content)
      case None => None
      case Some(b) => Some(Repair.Fix(b))
  }

  /** The acceptance test `isinstance(raw, dict) and isinstance(raw.get("books"), list)`,
      giving `raw["books"]` when it passes. */
  function Accept(raw: Option<JsonValue>): (r: Option<seq<JsonValue>>)
    ensures r.Some? <==> raw.Some? && raw.value.JObject? && Get(raw.value.fields, "books").Some?
                         && Get(raw.value.fields, "books").value.JArray?
    ensures r.Some? ==> Get(raw.value.fields, "books") == Some(JArray(r.value))
  {
    match raw
    case Some(JObject(fields)) =>
      (match Get(fields, "books")
       case Some(JArray(items)) => Some(items)
       case _ => None)
    case _ => None
  }

  /** The outcome of strategy `k`: the books it returns, or `None` when it
      raises or its result is not accepted. */
  function Attempt(content: string, parse: string -> Option<JsonValue>, k: nat): Option<seq<JsonValue>>
    requires k < 3
  {
    match StepInput(content, k)
    case None => None
    case Some(x) => Accept(parse(x))
  }

  /** The first strategy from `k` on whose outcome is accepted. */
  function FirstFrom(content: string, parse: string -> Option<JsonValue>, k: nat): (r: Option<seq<JsonValue>>)
    requires k <= 3
    ensures r.Some? ==> exists j | k <= j < 3 :: Attempt(content, parse, j) == r
                          && forall i | k <= i < j :: Attempt(content, parse, i).None?
    ensures r.None? <==> forall j | k <= j < 3 :: Attempt(content, parse, j).None?
    decreases 3 - k
  {
    if k == 3 then None
    else if Attempt(content, parse, k).Some? then Attempt(content, parse, k)
    else FirstFrom(content, parse, k + 1)
  }

  // ---------------------------------------------------------------------------
  // The whole of `safe_parse`

  /** A record the loose pattern found, as the dict `parse_loose_books` builds. */
  function BookJson(b: Loose.Book): (r: JsonValue)
    ensures r.JObject?
    ensures Get(r.fields, "title") == Some(JString(b.title))
    ensures Get(r.fields, "author") == Some(JString(b.author))
    ensures Get(r.fields, "reason") == Some(JString(b.reason))
  {
    var fields := [("title", JString(b.title)), ("author", JString(b.author)), ("reason", JString(b.reason))];
    assert "reason"[0] != "title"[0] && "reason"[0] != "author"[0] && "author"[0] != "title"[0];
    assert fields[..2] == [fields[0], fields[1]] && fields[..2][..1] == [fields[0]];
    assert Get(fields[..2], "title") == Get(fields[..2][..1], "title") == Some(JString(b.title));
    JObject(fields)
  }

  /** `parse_loose_books(s)`. */
  function LooseJson(s: string): (r: seq<JsonValue>)
    ensures |r| == |Loose.LooseBooks(s)|
    ensures forall i | 0 <= i < |r| :: r[i].JObject?
              && Get(r[i].fields, "title") == Some(JString(Loose.LooseBooks(s)[i].title))
              && Get(r[i].fields, "author") == Some(JString(Loose.LooseBooks(s)[i].author))
              && Get(r[i].fields, "reason") == Some(JString(Loose.LooseBooks(s)[i].reason))
  {
    var bs := Loose.LooseBooks(s);
    seq(|bs|, i requires 0 <= i < |bs| => BookJson(bs[i]))
  }

  /** Why `safe_parse` raises. */
  datatype ParseError = NoBooksFound

  /** `safe_parse(content)`: the books of the first accepted strategy, else the
      loose records when there are any, else an error. */
  function Extract(content: string, parse: string -> Option<JsonValue>): Result<seq<JsonValue>, ParseError> {
    match FirstFrom(content, parse, 0)
    case Some(books) => Ok(books)
    case None =>
      var loose := LooseJson(content);
      if loose != [] then Ok(loose) else Err(NoBooksFound)
  }

  /** `safe_parse` as the loop the source runs over its strategies. */
  method SafeParse(content: string, parse: string -> Option<JsonValue>)
    returns (r: Result<seq<JsonValue>, ParseError>)
    ensures r == Extract(content, parse)
  {
    var k := 0;
    while k < 3
      invariant 0 <= k <= 3
      invariant FirstFrom(content, parse, k) == FirstFrom(content, parse, 0)
    {
      var input := StepInput(content, k);
      if input.Some? {
        var raw := parse(input.value);
        var books := Accept(raw);
        if books.Some? {
          return Ok(books.value);
        }
      }
      k := k + 1;
    }
    var loose := LooseJson(content);
    if loose != [] {
      return Ok(loose);
    }
    return Err(NoBooksFound);
  }

  // ---------------------------------------------------------------------------
  // Properties

  /** A reply that already decodes to a books object is taken as it is: no
      repair is consulted. */
  lemma DirectWins(content: string, parse: string -> Option<JsonValue>)
    requires Accept(parse(content)).Some?
    ensures Extract(content, parse) == Ok(Accept(parse(content)).value)
  {
  }

  /** A strategy's books are returned only when every earlier strategy failed. */
  lemma {:induction false} ExtractJsonCase(content: string, parse: string -> Option<JsonValue>, k: nat)
    requires k < 3 && Attempt(content, parse, k).Some?
    requires forall i | 0 <= i < k :: Attempt(content, parse, i).None?
    ensures Extract(content, parse) == Ok(Attempt(content, parse, k).value)
  {
    if k > 0 {
      assert Attempt(content, parse, 0).None?;
    }
    if k > 1 {
      assert Attempt(content, parse, 1).None?;
    }
  }

  /** `safe_parse` raises exactly when no strategy is accepted and the loose
      pattern finds nothing. */
  lemma ExtractFailsIff(content: string, parse: string -> Option<JsonValue>)
    ensures Extract(content, parse).Err? <==>
      (forall k | 0 <= k < 3 :: Attempt(content, parse, k).None?) && Loose.LooseBooks(content) == []
  {
    if Extract(content, parse).Err? {
      assert FirstFrom(content, parse, 0).None?;
      assert |LooseJson(content)| == 0;
    }
  }

  /** Where a successful result comes from: the first accepted strategy, or,
      when none is accepted, the loose records, of which there is at least one. */
  lemma ExtractSources(content: string, parse: string -> Option<JsonValue>, books: seq<JsonValue>)
    requires Extract(content, parse) == Ok(books)
    ensures (exists k | 0 <= k < 3 :: Attempt(content, parse, k) == Some(books)
               && forall i | 0 <= i < k :: Attempt(content, parse, i).None?)
         || ((forall k | 0 <= k < 3 :: Attempt(content, parse, k).None?)
               && books == LooseJson(content) && books != [])
  {
  }

  /** The loose fallback never returns an empty list: an empty result can only
      come from a decoded `{"books": []}`. */
  lemma EmptyOnlyFromJson(content: string, parse: string -> Option<JsonValue>)
    requires Extract(content, parse) == Ok([])
    ensures exists k | 0 <= k < 3 :: Attempt(content, parse, k) == Some([])
  {
    assert FirstFrom(content, parse, 0).Some?;
  }

  /** With a decoder that rejects everything, `safe_parse` is the loose pattern. */
  lemma {:induction false} WithoutJson(content: string, parse: string -> Option<JsonValue>)
    requires forall x :: parse(x).None?
    ensures Loose.LooseBooks(content) != [] ==> Extract(content, parse) == Ok(LooseJson(content))
    ensures Loose.LooseBooks(content) == [] ==> Extract(content, parse) == Err(NoBooksFound)
  {
    assert Attempt(content, parse, 0).None?;
    assert Attempt(content, parse, 1).None?;
    assert Attempt(content, parse, 2).None?;
    assert |LooseJson(content)| == |Loose.LooseBooks(content)|;
  }

  /** Without a `{ ... }` block the third strategy raises, and only the reply
      and its repair are decoded. */
  lemma NoBlockNoThird(content: string, parse: string -> Option<JsonValue>)
    requires forall a, b | 0 <= a < b < |content| :: !(content[a] == '{' && content[b] == '}')
    ensures Attempt(content, parse, 2) == None
  {
  }

  /** The block of a text is unique: any span from the first `{` to the last
      `}` is the one `BlockSpan` finds. */
  lemma BlockIsSpan(s: string, i: nat, j: nat)
    requires IsBlock(s, i, j)
    ensures BlockSpan(s) == Some((i, j)) && Block(s) == Some(s[i..j + 1])
  {
    var r := BlockSpan(s);
    assert r.Some?;
    assert r.value.0 == i;
    assert r.value.1 == j;
  }

  /** When the reply and its repair are not accepted but the repaired text from
      the first `{` to the last `}` is, its books are returned. */
  lemma BlockWins(content: string, parse: string -> Option<JsonValue>, i: nat, j: nat)
    requires IsBlock(content, i, j)
    requires Accept(parse(content)).None? && Accept(parse(Repair.Fix(content))).None?
    requires Accept(parse(Repair.Fix(content[i..j + 1]))).Some?
    ensures Extract(content, parse) == Ok(Accept(parse(Repair.Fix(content[i..j + 1]))).value)
  {
    BlockIsSpan(content, i, j);
    assert Attempt(content, parse, 2) == Accept(parse(Repair.Fix(content[i..j + 1])));
    ExtractJsonCase(content, parse, 2);
  }

  /** A reply that is a books object apart from two glued records or a trailing
      comma is recovered by the repair strategy. */
  lemma RepairWins(content: string, parse: string -> Option<JsonValue>)
    requires Accept(parse(content)).None? && Accept(parse(Repair.Fix(content))).Some?
    ensures Extract(content, parse) == Ok(Accept(parse(Repair.Fix(content))).value)
  {
    ExtractJsonCase(content, parse, 1);
  }
}
