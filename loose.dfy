/** The last-resort extractor `parse_loose_books`: `LOOSE_RE.findall` over the
    raw reply. The pattern

      {  [^{}]*?  "title"\s*:\s*"([^"]+)"  [^{}]*?  "author"\s*:\s*"([^"]+)"
         [^{}]*?  "reason"\s*:\s*"([^"]+)"  [^{}]*?  }

    is compiled with IGNORECASE. Its lazy fillers backtrack: each filler first
    tries to be empty, and grows by one brace-free character whenever the rest
    of the pattern fails. The fields themselves match deterministically (a
    greedy `\s*` or `[^"]+` cannot usefully give characters back), so the
    matcher below only backtracks over filler lengths, in the engine's order. */
module Loose {
  import opened Wrappers
  import opened Text

  /** One `(title, author, reason)` tuple of `findall`, i.e. one loose record. */
  datatype Book = Book(title: string, author: string, reason: string)

  /** A match of the pattern: the span `[start, end)` and its three groups. */
  datatype Hit = Hit(start: nat, end: nat, book: Book)

  /** A captured group of `[^"]+`: non-empty and free of double quotes. */
  predicate Clean(v: string) {
    v != [] && forall i | 0 <= i < |v| :: v[i] != '"'
  }

  /** Every captured group in `vs` is clean. */
  predicate AllClean(vs: seq<string>) {
    forall j | 0 <= j < |vs| :: Clean(vs[j])
  }

  /** Under IGNORECASE a lower-case pattern letter `k` matches `c` when both have
      the same simple lower-case form, or through the extra equivalences of
      Python's engine that concern the letters of the three keys (dotted and
      dotless i, long s). */
  predicate LetterMatches(c: char, k: char) {
    c == k
    || ('a' <= k <= 'z' && c as int == k as int - 32)
    || (k == 'i' && (c == '\U{130}' || c == '\U{131}'))
    || (k == 's' && c == '\U{17f}')
  }

  /** `w` is a spelling that the pattern's key `k` accepts. */
  predicate Spells(w: string, k: string) {
    |w| == |k| && forall i | 0 <= i < |k| :: LetterMatches(w[i], k[i])
  }

  /** The key of field `stage`, in the pattern's order. */
  function Key(stage: nat): string
    requires stage < 3
  {
    if stage == 0 then "title" else if stage == 1 then "author" else "reason"
  }

  /** The letters of `key` appear from position `i` of `s` on, compared ignoring case. */
  predicate LettersAt(s: string, i: nat, key: string)
    decreases key
  {
    key == [] || (i < |s| && LetterMatches(s[i], key[0]) && LettersAt(s, i + 1, key[1..]))
  }

  /** Position `i` of `s` starts `"key"`, the letters compared ignoring case. */
  predicate QuotedKeyAt(s: string, i: nat, key: string) {
    i + |key| + 2 <= |s| && s[i] == '"' && s[i + |key| + 1] == '"' && LettersAt(s, i + 1, key)
  }

  /** A spelling of `key` written at position `i` is read as `key`. */
  lemma {:induction false} LettersOfSpelling(s: string, i: nat, w: string, key: string)
    requires Spells(w, key) && Written(s, i, w)
    ensures LettersAt(s, i, key)
    decreases key
  {
    if key != [] {
      assert s[i + 0] == w[0];
      assert forall j | 0 <= j < |w| - 1 :: s[i + 1 + j] == s[i + (j + 1)] == w[1..][j];
      LettersOfSpelling(s, i + 1, w[1..], key[1..]);
    }
  }

  /** Where the run of non-quote characters that starts at position `i` ends. */
  function QuoteFree(s: string, i: nat): (n: nat)
    requires i <= |s|
    ensures i <= n <= |s|
    ensures forall j | i <= j < n :: s[j] != '"'
    ensures n < |s| ==> s[n] == '"'
    decreases |s| - i
  {
    if i < |s| && s[i] != '"' then QuoteFree(s, i + 1) else i
  }

  /** `\s*"([^"]+)"` at position `j`: the greedy whitespace run, the opening
      quote and the captured value up to the closing quote. */
  function ValuePart(s: string, j: nat): (r: Option<(string, nat)>)
    requires j <= |s|
    ensures r.Some? ==> Clean(r.value.0) && j < r.value.1 <= |s| && s[r.value.1 - 1] == '"'
    decreases |s| - j
  {
    if j < |s| && IsSpace(s[j]) then ValuePart(s, j + 1)
    else if j < |s| && s[j] == '"' then
      var e := QuoteFree(s, j + 1);
      if j + 1 < e < |s| then Some((s[j + 1..e], e + 1)) else None
    else None
  }

  /** `\s*:` and then `ValuePart`, at position `j`. */
  function ColonPart(s: string, j: nat): (r: Option<(string, nat)>)
    requires j <= |s|
    ensures r.Some? ==> Clean(r.value.0) && j < r.value.1 <= |s| && s[r.value.1 - 1] == '"'
    decreases |s| - j
  {
    if j < |s| && IsSpace(s[j]) then ColonPart(s, j + 1)
    else if j < |s| && s[j] == ':' then ValuePart(s, j + 1)
    else None
  }

  /** One field `"key"\s*:\s*"([^"]+)"` at position `i` of `s`: the captured
      value and the position just after the field. (A greedy `\s*` never needs
      to give characters back here, since `:` and `"` are not whitespace.) */
  function Field(s: string, i: nat, key: string): (r: Option<(string, nat)>)
    requires i <= |s|
    ensures r.Some? ==> Clean(r.value.0) && i < r.value.1 <= |s| && s[r.value.1 - 1] == '"'
  {
    if QuotedKeyAt(s, i, key) then ColonPart(s, i + |key| + 2) else None
  }

  /** The pattern after its opening `{`, from the filler before field `stage`
      on (stage 3 is the final filler and the closing `}`), matched at position
      `i` of `s`: the remaining groups and the position just after the match.
      The filler is lazy: the rest of the pattern is tried at `i` first, and
      only when that fails does the filler take one more brace-free character. */
  function Rest(s: string, i: nat, stage: nat): (r: Option<(seq<string>, nat)>)
    requires i <= |s| && stage <= 3
    ensures r.Some? ==> |r.value.0| == 3 - stage && AllClean(r.value.0)
    ensures r.Some? ==> i < r.value.1 <= |s| && s[r.value.1 - 1] == '}'
    decreases |s| - i, 1
  {
    if stage == 3 && i < |s| && s[i] == '}' then Some(([], i + 1))
    else if stage < 3 && FieldThenRest(s, i, stage).Some? then FieldThenRest(s, i, stage)
    else if i < |s| && s[i] != '{' && s[i] != '}' then Rest(s, i + 1, stage)
    else None
  }

  /** Field `stage` right at position `i`, followed by the rest of the pattern. */
  function FieldThenRest(s: string, i: nat, stage: nat): (r: Option<(seq<string>, nat)>)
    requires i <= |s| && stage < 3
    ensures r.Some? ==> |r.value.0| == 3 - stage && AllClean(r.value.0)
    ensures r.Some? ==> i < r.value.1 <= |s| && s[r.value.1 - 1] == '}'
    decreases |s| - i, 0
  {
    match Field(s, i, Key(stage))
    case None => None
    case Some((v, e)) =>
      match Rest(s, e, stage + 1)
      case None => None
      case Some((vs, m)) =>
        var r := [v] + vs;
        assert forall j | 1 <= j < |r| :: r[j] == vs[j - 1];
        Some((r, m))
  }

  /** `LOOSE_RE.match(s, p)`: the match starting exactly at `p`, if any. */
  function MatchAt(s: string, p: nat): (r: Option<Hit>)
    requires p < |s|
    ensures r.Some? ==> r.value.start == p && p < r.value.end <= |s|
    ensures r.Some? ==> s[p] == '{' && s[r.value.end - 1] == '}'
    ensures r.Some? ==> Clean(r.value.book.title) && Clean(r.value.book.author) && Clean(r.value.book.reason)
  {
    if s[p] != '{' then None
    else
      match Rest(s, p + 1, 0)
      case None => None
      case Some((vs, e)) => Some(Hit(p, e, Book(vs[0], vs[1], vs[2])))
  }

  /** The scan of `findall` from position `p`: try each position in turn and,
      after a match, resume at its end. */
  function Scan(s: string, p: nat): (r: seq<Hit>)
    requires p <= |s|
    ensures forall i | 0 <= i < |r| :: p <= r[i].start < r[i].end <= |s| && MatchAt(s, r[i].start) == Some(r[i])
    ensures forall i | 0 <= i < |r| - 1 :: r[i].end <= r[i + 1].start
    decreases |s| - p
  {
    if p == |s| then []
    else
      match MatchAt(s, p)
      case Some(h) => [h] + Scan(s, h.end)
      case None => Scan(s, p + 1)
  }

  /** `parse_loose_books`: the records of all matches, left to right. */
  function LooseBooks(s: string): (r: seq<Book>)
    ensures forall i | 0 <= i < |r| :: Clean(r[i].title) && Clean(r[i].author) && Clean(r[i].reason)
  {
    var hits := Scan(s, 0);
    seq(|hits|, i requires 0 <= i < |hits| => hits[i].book)
  }

  // ---------------------------------------------------------------------------
  // The scan is leftmost and non-overlapping

  /** Position `q` starts one of the reported matches or lies inside one. */
  ghost predicate Accounted(r: seq<Hit>, q: nat) {
    exists i | 0 <= i < |r| :: r[i].start <= q < r[i].end
  }

  /** Every position where the pattern matches is either the start of a reported
      match or lies inside an earlier reported match: together with the ensures
      of `Scan`, the reported matches are exactly the leftmost non-overlapping ones. */
  lemma {:induction false} ScanIsLeftmost(s: string, p: nat, q: nat)
    requires p <= q < |s| && MatchAt(s, q).Some?
    ensures Accounted(Scan(s, p), q)
    decreases |s| - p
  {
    var r := Scan(s, p);
    if MatchAt(s, p).Some? {
      var h := MatchAt(s, p).value;
      assert r == [h] + Scan(s, h.end);
      assert r[0] == h && h.start == p;
      if q == p {
        assert 0 <= 0 < |r| && r[0].start <= q < r[0].end;
      } else if q < h.end {
        assert r[0].start <= q < r[0].end;
      } else {
        ScanIsLeftmost(s, h.end, q);
        var r' := Scan(s, h.end);
        var i :| 0 <= i < |r'| && r'[i].start <= q < r'[i].end;
        assert r[i + 1] == r'[i];
      }
    } else {
      assert q != p;
      ScanIsLeftmost(s, p + 1, q);
      assert r == Scan(s, p + 1);
    }
  }

  // ---------------------------------------------------------------------------
  // What the pattern recovers

  /** A field as a well-formed reply writes it: `"key":"value"`. */
  function Fld(w: string, v: string): string {
    "\"" + w + "\":\"" + v + "\""
  }

  /** A record object as a well-formed reply writes it, with the keys spelled `keys`. */
  function Snippet(keys: seq<string>, b: Book): string
    requires |keys| == 3
  {
    "{" + Fld(keys[0], b.title) + "," + Fld(keys[1], b.author) + "," + Fld(keys[2], b.reason) + "}"
  }

  /** `w` is written at position `k` of `s`. */
  predicate Written(s: string, k: nat, w: string) {
    k + |w| <= |s| && forall j {:trigger w[j]} | 0 <= j < |w| :: s[k + j] == w[j]
  }

  lemma {:induction false} WrittenMiddle(x: string, m: string, y: string)
    ensures Written(x + m + y, |x|, m)
  {
    var s := x + m + y;
    forall j | 0 <= j < |m| ensures s[|x| + j] == m[j] {
      assert s[|x| + j] == (x + m)[|x| + j];
    }
  }

  lemma {:induction false} WrittenSplit(s: string, k: nat, a: string, b: string)
    requires Written(s, k, a + b)
    ensures Written(s, k, a) && Written(s, k + |a|, b)
  {
    forall j | 0 <= j < |a| ensures s[k + j] == a[j] {
      assert (a + b)[j] == a[j];
    }
    forall j | 0 <= j < |b| ensures s[k + |a| + j] == b[j] {
      assert s[k + (|a| + j)] == (a + b)[|a| + j];
    }
  }

  /** The field `"w":"v"` is written at position `k` of `s`. */
  predicate FldAt(s: string, k: nat, w: string, v: string) {
    k + |w| + |v| + 5 <= |s| && s[k] == '"' && Written(s, k + 1, w) && s[k + |w| + 1] == '"'
    && s[k + |w| + 2] == ':' && s[k + |w| + 3] == '"' && Written(s, k + |w| + 4, v)
    && s[k + |w| + 4 + |v|] == '"'
  }

  lemma {:induction false} FldAtOfWritten(s: string, k: nat, w: string, v: string)
    requires Written(s, k, Fld(w, v))
    ensures FldAt(s, k, w, v) && |Fld(w, v)| == |w| + |v| + 5
  {
    var q, m := "\"", "\":\"";
    assert Fld(w, v) == (((q + w) + m) + v) + q;
    WrittenSplit(s, k, (((q + w) + m) + v), q);
    WrittenSplit(s, k, ((q + w) + m), v);
    WrittenSplit(s, k, (q + w), m);
    WrittenSplit(s, k, q, w);
    assert s[k + 0] == q[0];
    assert s[k + |w| + 1 + 0] == m[0] && s[k + |w| + 1 + 1] == m[1] && s[k + |w| + 1 + 2] == m[2];
    assert s[k + |w| + 4 + |v| + 0] == q[0];
  }

  /** A captured value written at position `i`, followed by a quote. */
  lemma {:induction false} QuoteFreeOver(s: string, i: nat, v: string)
    requires Clean(v) && i + |v| < |s| && s[i + |v|] == '"' && Written(s, i, v)
    ensures QuoteFree(s, i) == i + |v| && s[i..i + |v|] == v
  {
    assert forall j | i <= j < i + |v| :: s[j] == v[j - i];
  }

  /** What `Field` reads, character by character. */
  lemma {:induction false} FieldFromChars(s: string, k: nat, key: string, v: string)
    requires k + |key| + |v| + 5 <= |s| && QuotedKeyAt(s, k, key) && Clean(v)
    requires s[k + |key| + 2] == ':' && s[k + |key| + 3] == '"' && s[k + |key| + 4 + |v|] == '"'
    requires Written(s, k + |key| + 4, v)
    ensures Field(s, k, key) == Some((v, k + |key| + |v| + 5))
  {
    var a := k + |key| + 2;
    QuoteFreeOver(s, a + 2, v);
    assert ValuePart(s, a + 1) == Some((v, a + 3 + |v|));
    assert ColonPart(s, a) == Some((v, a + 3 + |v|));
  }

  /** A field written `"w":"v"` is matched as field `key` when `w` spells `key`. */
  lemma {:induction false} FieldOfFld(s: string, k: nat, w: string, key: string, v: string)
    requires FldAt(s, k, w, v) && Spells(w, key) && Clean(v)
    ensures Field(s, k, key) == Some((v, k + |w| + |v| + 5))
  {
    LettersOfSpelling(s, k + 1, w, key);
    FieldFromChars(s, k, key, v);
  }

  lemma {:induction false} FieldThenRestOf(s: string, k: nat, stage: nat, v: string, e: nat, vs: seq<string>, m: nat)
    requires stage < 3 && k <= e <= |s| && Field(s, k, Key(stage)) == Some((v, e))
    requires Rest(s, e, stage + 1) == Some((vs, m))
    ensures FieldThenRest(s, k, stage) == Some(([v] + vs, m))
  {}

  lemma {:induction false} RestOfFieldThenRest(s: string, k: nat, stage: nat, r: Option<(seq<string>, nat)>)
    requires stage < 3 && k <= |s| && FieldThenRest(s, k, stage) == r && r.Some?
    ensures Rest(s, k, stage) == r
  {}

  /** Field `stage` followed by the rest of the pattern matches without filler. */
  lemma {:induction false} StepField(s: string, k: nat, stage: nat, v: string, e: nat, vs: seq<string>, m: nat)
    requires stage < 3 && k <= e <= |s| && Field(s, k, Key(stage)) == Some((v, e))
    requires Rest(s, e, stage + 1) == Some((vs, m))
    ensures Rest(s, k, stage) == Some(([v] + vs, m))
  {
    FieldThenRestOf(s, k, stage, v, e, vs, m);
    RestOfFieldThenRest(s, k, stage, Some(([v] + vs, m)));
  }

  /** A character that starts no field is taken by the lazy filler. */
  lemma {:induction false} StepComma(s: string, k: nat, stage: nat, vs: seq<string>, m: nat)
    requires stage < 3 && k < |s| && s[k] == ','
    requires Rest(s, k + 1, stage) == Some((vs, m))
    ensures Rest(s, k, stage) == Some((vs, m))
  {
    assert !QuotedKeyAt(s, k, Key(stage));
  }

  lemma {:induction false} StepClose(s: string, k: nat)
    requires k < |s| && s[k] == '}'
    ensures Rest(s, k, 3) == Some(([], k + 1))
  {}

  lemma {:induction false} ScanSkips(s: string, p: nat, q: nat)
    requires p <= q <= |s|
    requires forall i | p <= i < q :: s[i] != '{'
    ensures Scan(s, p) == Scan(s, q)
    decreases q - p
  {
    if p < q {
      ScanSkips(s, p + 1, q);
    }
  }

  lemma {:induction false} MatchAtFromRest(s: string, p: nat, b: Book, e: nat)
    requires p < |s| && s[p] == '{' && Rest(s, p + 1, 0) == Some((Triple(b), e))
    ensures MatchAt(s, p) == Some(Hit(p, e, b))
  {}

  /** A text whose only brace-opened match is `h` yields exactly `h`. */
  lemma {:induction false} ScanSingle(s: string, h: Hit)
    requires h.start < |s| && MatchAt(s, h.start) == Some(h)
    requires forall i | 0 <= i < h.start :: s[i] != '{'
    requires forall i | h.end <= i < |s| :: s[i] != '{'
    ensures Scan(s, 0) == [h]
  {
    ScanSkips(s, 0, h.start);
    ScanSkips(s, h.end, |s|);
    assert Scan(s, h.start) == [h] + Scan(s, h.end);
  }

  /** Where the three fields of a snippet with keys `keys` and record `b` end
      when its opening brace is at `p`. */
  function Ends(p: nat, keys: seq<string>, b: Book): (nat, nat, nat)
    requires |keys| == 3
  {
    var e0 := p + 1 + |keys[0]| + |b.title| + 5;
    var e1 := e0 + 1 + |keys[1]| + |b.author| + 5;
    (e0, e1, e1 + 1 + |keys[2]| + |b.reason| + 5)
  }

  /** Where the pieces of a snippet with keys `keys` and record `b` sit when
      its opening brace is at `p` of `s`. */
  predicate Layout(s: string, p: nat, keys: seq<string>, b: Book)
    requires |keys| == 3
  {
    var (e0, e1, e2) := Ends(p, keys, b);
    e2 < |s| && s[p] == '{'
    && FldAt(s, p + 1, keys[0], b.title) && s[e0] == ','
    && FldAt(s, e0 + 1, keys[1], b.author) && s[e1] == ','
    && FldAt(s, e1 + 1, keys[2], b.reason) && s[e2] == '}'
  }

  lemma {:induction false} WrittenChar(s: string, k: nat, c: char)
    requires Written(s, k, [c])
    ensures s[k] == c
  {
    assert s[k + 0] == [c][0];
  }

  /** A snippet written at `p` is laid out as `Layout` says. */
  lemma {:induction false} SnippetLayout(s: string, p: nat, keys: seq<string>, b: Book)
    requires |keys| == 3 && Written(s, p, Snippet(keys, b))
    ensures Layout(s, p, keys, b)
    ensures |Snippet(keys, b)| == |keys[0]| + |b.title| + |keys[1]| + |b.author| + |keys[2]| + |b.reason| + 19
  {
    var f0, f1, f2 := Fld(keys[0], b.title), Fld(keys[1], b.author), Fld(keys[2], b.reason);
    var x1 := "{" + f0;
    var x2 := x1 + ",";
    var x3 := x2 + f1;
    var x4 := x3 + ",";
    var x5 := x4 + f2;
    assert Snippet(keys, b) == x5 + "}";
    WrittenSplit(s, p, x5, "}");
    WrittenSplit(s, p, x4, f2);
    WrittenSplit(s, p, x3, ",");
    WrittenSplit(s, p, x2, f1);
    WrittenSplit(s, p, x1, ",");
    WrittenSplit(s, p, "{", f0);
    FldAtOfWritten(s, p + 1, keys[0], b.title);
    FldAtOfWritten(s, p + |x2|, keys[1], b.author);
    FldAtOfWritten(s, p + |x4|, keys[2], b.reason);
    WrittenChar(s, p, '{');
    WrittenChar(s, p + |x1|, ',');
    WrittenChar(s, p + |x3|, ',');
    WrittenChar(s, p + |x5|, '}');
  }

  /** Text around a middle part keeps its characters. */
  lemma {:induction false} Around(x: string, m: string, y: string)
    ensures forall i | 0 <= i < |x| :: (x + m + y)[i] == x[i]
    ensures forall i | |x| + |m| <= i < |x| + |m| + |y| :: (x + m + y)[i] == y[i - |x| - |m|]
  {}

  /** The groups of a record, in the order the pattern captures them (built
      the way the matcher builds them, one group in front of the rest). */
  function Triple(b: Book): seq<string> {
    [b.title] + ([b.author] + ([b.reason] + []))
  }

  /** A field written out at `k`, read by `Field`, followed by the rest of
      the pattern. */
  lemma {:induction false} StepFld(s: string, k: nat, stage: nat, w: string, v: string, e: nat, vs: seq<string>, m: nat)
    requires stage < 3 && FldAt(s, k, w, v) && Spells(w, Key(stage)) && Clean(v)
    requires e == k + |w| + |v| + 5 && Rest(s, e, stage + 1) == Some((vs, m))
    ensures Rest(s, k, stage) == Some(([v] + vs, m))
  {
    FieldOfFld(s, k, w, Key(stage), v);
    StepField(s, k, stage, v, e, vs, m);
  }

  /** A comma, then a field written out after it, then the rest. */
  lemma {:induction false} StepCommaFld(s: string, k: nat, stage: nat, w: string, v: string, e: nat, vs: seq<string>, m: nat)
    requires stage < 3 && k < |s| && s[k] == ',' && FldAt(s, k + 1, w, v) && Spells(w, Key(stage)) && Clean(v)
    requires e == k + 1 + |w| + |v| + 5 && Rest(s, e, stage + 1) == Some((vs, m))
    ensures Rest(s, k, stage) == Some(([v] + vs, m))
  {
    StepFld(s, k + 1, stage, w, v, e, vs, m);
    StepComma(s, k, stage, [v] + vs, m);
  }

  /** A comma, the last field written out, and the closing brace. */
  lemma {:induction false} StepLastFld(s: string, k: nat, w: string, v: string, e: nat)
    requires k < |s| && s[k] == ',' && FldAt(s, k + 1, w, v) && Spells(w, Key(2)) && Clean(v)
    requires e == k + 1 + |w| + |v| + 5 && e < |s| && s[e] == '}'
    ensures Rest(s, k, 2) == Some(([v] + [], e + 1))
  {
    var end := e + 1;
    StepClose(s, e);
    StepCommaFld(s, k, 2, w, v, e, [], end);
  }

  /** The pattern after the opening brace of a laid-out snippet matches the
      whole snippet and captures its three values. */
  lemma {:induction false} RestOfLayout(s: string, p: nat, keys: seq<string>, b: Book)
    requires |keys| == 3 && Spells(keys[0], Key(0)) && Spells(keys[1], Key(1)) && Spells(keys[2], Key(2))
    requires Clean(b.title) && Clean(b.author) && Clean(b.reason)
    requires Layout(s, p, keys, b)
    ensures Rest(s, p + 1, 0) == Some((Triple(b), Ends(p, keys, b).2 + 1))
  {
    var (e0, e1, e2) := Ends(p, keys, b);
    var r2 := [b.reason] + [];
    var r1 := [b.author] + r2;
    var end := e2 + 1;
    StepLastFld(s, e1, keys[2], b.reason, e2);
    StepCommaFld(s, e0, 1, keys[1], b.author, e1, r2, end);
    StepFld(s, p + 1, 0, keys[0], b.title, e0, r1, end);
  }

  /** A match at `p` with no other opening brace in `s` is the only record found. */
  lemma {:induction false} LooseOnlyMatch(s: string, p: nat, e: nat, b: Book)
    requires p < |s| && s[p] == '{' && Rest(s, p + 1, 0) == Some((Triple(b), e))
    requires forall i | 0 <= i < p :: s[i] != '{'
    requires forall i | e <= i < |s| :: s[i] != '{'
    ensures LooseBooks(s) == [b]
  {
    MatchAtFromRest(s, p, b, e);
    ScanSingle(s, Hit(p, e, b));
  }

  /** A snippet placed after `pre` is laid out there and ends where `post`
      begins. */
  lemma {:induction false} SnippetAfter(pre: string, keys: seq<string>, b: Book, post: string)
    requires |keys| == 3
    ensures Layout(pre + Snippet(keys, b) + post, |pre|, keys, b)
    ensures Ends(|pre|, keys, b).2 + 1 == |pre| + |Snippet(keys, b)|
  {
    var s := pre + Snippet(keys, b) + post;
    WrittenMiddle(pre, Snippet(keys, b), post);
    SnippetLayout(s, |pre|, keys, b);
  }

  /** A laid-out snippet with no other opening brace around it is the only
      record found. */
  lemma {:induction false} LooseOfLayout(s: string, p: nat, keys: seq<string>, b: Book)
    requires |keys| == 3 && Spells(keys[0], Key(0)) && Spells(keys[1], Key(1)) && Spells(keys[2], Key(2))
    requires Clean(b.title) && Clean(b.author) && Clean(b.reason)
    requires Layout(s, p, keys, b)
    requires forall i | 0 <= i < p :: s[i] != '{'
    requires forall i | Ends(p, keys, b).2 + 1 <= i < |s| :: s[i] != '{'
    ensures LooseBooks(s) == [b]
  {
    RestOfLayout(s, p, keys, b);
    LooseOnlyMatch(s, p, Ends(p, keys, b).2 + 1, b);
  }

  /** A record written as a well-formed object, with its keys in any letter
      case, is recovered exactly, also when prose without braces surrounds it. */
  lemma {:induction false} LooseRecoversSnippet(pre: string, keys: seq<string>, b: Book, post: string)
    requires |keys| == 3 && forall j | 0 <= j < 3 :: Spells(keys[j], Key(j))
    requires Clean(b.title) && Clean(b.author) && Clean(b.reason)
    requires forall i | 0 <= i < |pre| :: pre[i] != '{'
    requires forall i | 0 <= i < |post| :: post[i] != '{'
    ensures LooseBooks(pre + Snippet(keys, b) + post) == [b]
  {
    var s := pre + Snippet(keys, b) + post;
    SnippetAfter(pre, keys, b, post);
    assert Spells(keys[0], Key(0)) && Spells(keys[1], Key(1)) && Spells(keys[2], Key(2));
    Around(pre, Snippet(keys, b), post);
    LooseOfLayout(s, |pre|, keys, b);
  }

  /** Seven pieces of text, regrouped. */
  lemma {:induction false} Regroup(a: string, b: string, c: string, d: string, e: string, f: string, g: string)
    ensures a + b + c + d + e + f + g == (a + b + c) + (d + e) + (f + g)
  {}

  /** A middle part of three pieces, regrouped. */
  lemma {:induction false} RegroupMiddle(x: string, a: string, b: string, c: string, y: string)
    ensures x + (a + b + c) + y == x + a + b + c + y
  {}

  /** The example snippet of the lemma below, written out. */
  lemma {:induction false} DuneText()
    ensures Snippet(["title", "author", "reason"], Book("Dune", "Frank Herbert", "Epic scope"))
         == "{\"title\":\"Dune\"," + "\"author\":\"Frank Herbert\"," + "\"reason\":\"Epic scope\"}"
  {
    Regroup("{", Fld("title", "Dune"), ",", Fld("author", "Frank Herbert"), ",", Fld("reason", "Epic scope"), "}");
    assert "{" + Fld("title", "Dune") + "," == "{\"title\":\"Dune\",";
    assert Fld("author", "Frank Herbert") + "," == "\"author\":\"Frank Herbert\",";
    assert Fld("reason", "Epic scope") + "}" == "\"reason\":\"Epic scope\"}";
  }

  /** The example of a record embedded in prose. */
  lemma {:induction false} DuneInProse()
    ensures LooseBooks("Try " + "{\"title\":\"Dune\"," + "\"author\":\"Frank Herbert\"," + "\"reason\":\"Epic scope\"}" + " today")
         == [Book("Dune", "Frank Herbert", "Epic scope")]
  {
    var b := Book("Dune", "Frank Herbert", "Epic scope");
    LooseRecoversSnippet("Try ", ["title", "author", "reason"], b, " today");
    DuneText();
    RegroupMiddle("Try ", "{\"title\":\"Dune\",", "\"author\":\"Frank Herbert\",", "\"reason\":\"Epic scope\"}", " today");
  }

  /** The example snippet of the lemma below, written out. */
  lemma {:induction false} UpperText()
    ensures Snippet(["TITLE", "Author", "REASON"], Book("Dune", "Herbert", "Epic"))
         == "{\"TITLE\":\"Dune\"," + "\"Author\":\"Herbert\"," + "\"REASON\":\"Epic\"}"
  {
    Regroup("{", Fld("TITLE", "Dune"), ",", Fld("Author", "Herbert"), ",", Fld("REASON", "Epic"), "}");
    assert "{" + Fld("TITLE", "Dune") + "," == "{\"TITLE\":\"Dune\",";
    assert Fld("Author", "Herbert") + "," == "\"Author\":\"Herbert\",";
    assert Fld("REASON", "Epic") + "}" == "\"REASON\":\"Epic\"}";
  }

  /** Keys are matched ignoring letter case. The reply is written with empty
      text before and after the record, the shape `LooseRecoversSnippet` and
      `RegroupMiddle` take. */
  lemma {:induction false} UpperCaseKeys()
    ensures LooseBooks("" + "{\"TITLE\":\"Dune\"," + "\"Author\":\"Herbert\"," + "\"REASON\":\"Epic\"}" + "")
         == [Book("Dune", "Herbert", "Epic")]
  {
    var b := Book("Dune", "Herbert", "Epic");
    var keys := ["TITLE", "Author", "REASON"];
    assert Spells(keys[0], Key(0)) && Spells(keys[1], Key(1)) && Spells(keys[2], Key(2));
    LooseRecoversSnippet("", keys, b, "");
    UpperText();
    RegroupMiddle("", "{\"TITLE\":\"Dune\",", "\"Author\":\"Herbert\",", "\"REASON\":\"Epic\"}", "");
  }
}
