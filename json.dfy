/** The values `json.loads` produces, seen from the Python side: dicts, lists,
    strings, numbers, booleans and `None`, plus the two Python operations the
    pipeline applies to them (`dict.get` and formatting with `str()`). */
module Json {
  import opened Wrappers

  /** A decoded JSON document. An object keeps its members in document order. */
  datatype JsonValue =
    | JNull
    | JBool(b: bool)
    | JNumber(n: int)
    | JString(str: string)
    | JArray(items: seq<JsonValue>)
    | JObject(fields: seq<(string, JsonValue)>)

  /** `d.get(key)` on a dict decoded by `json.loads`: when a key is repeated the
      decoder keeps the last value, so the lookup returns the last binding. */
  function Get(fields: seq<(string, JsonValue)>, key: string): Option<JsonValue> {
    if fields == [] then None
    else if fields[|fields| - 1].0 == key then Some(fields[|fields| - 1].1)
    else Get(fields[..|fields| - 1], key)
  }

  /** The lookup finds nothing exactly when no member has the key, and
      otherwise the value of the last member that has it. */
  lemma {:induction false} GetIsLastBinding(fields: seq<(string, JsonValue)>, key: string)
    ensures Get(fields, key).None? <==> forall i | 0 <= i < |fields| :: fields[i].0 != key
    ensures Get(fields, key).Some? ==> exists i | 0 <= i < |fields| ::
      fields[i] == (key, Get(fields, key).value) && forall j | i < j < |fields| :: fields[j].0 != key
    decreases |fields|
  {
    if fields != [] && fields[|fields| - 1].0 != key {
      var init := fields[..|fields| - 1];
      GetIsLastBinding(init, key);
      assert forall i | 0 <= i < |init| :: init[i] == fields[i];
    }
  }

  function DigitChar(d: nat): char
    requires d < 10
  {
    "0123456789"[d]
  }

  function Digits(n: nat): string
    decreases n
  {
    if n < 10 then [DigitChar(n)] else Digits(n / 10) + [DigitChar(n % 10)]
  }

  /** `str(n)` for a Python int. */
  function Decimal(n: int): string {
    if n < 0 then "-" + Digits(-n) else Digits(n)
  }

  /** Items joined by Python's `", "` separator. */
  function Join(parts: seq<string>): string {
    if parts == [] then []
    else if |parts| == 1 then parts[0]
    else parts[0] + ", " + Join(parts[1..])
  }

  /** Position of the last member of `fields` with key `key`, or -1: where
      `dict.get` finds its value. */
  function LastAt(fields: seq<(string, JsonValue)>, key: string): (r: int)
    ensures -1 <= r < |fields|
    ensures r >= 0 ==> fields[r].0 == key && Get(fields, key) == Some(fields[r].1)
    ensures r < 0 ==> Get(fields, key) == None && forall j | 0 <= j < |fields| :: fields[j].0 != key
    decreases |fields|
  {
    if fields == [] then -1
    else if fields[|fields| - 1].0 == key then |fields| - 1
    else
      var r := LastAt(fields[..|fields| - 1], key);
      assert forall j | 0 <= j < |fields| - 1 :: fields[..|fields| - 1][j] == fields[j];
      r
  }

  /** Some member of `fields[..n]` has key `key`. */
  predicate KeyBefore(fields: seq<(string, JsonValue)>, key: string, n: nat)
    requires n <= |fields|
  {
    exists j | 0 <= j < n :: fields[j].0 == key
  }

  /** The positions among the first `n` members of `fields` whose key no
      earlier member has: the keys of the dict `json.loads` builds, which keeps
      each key where it first appears. */
  function KeyPositions(fields: seq<(string, JsonValue)>, n: nat): (r: seq<nat>)
    requires n <= |fields|
    ensures forall m | 0 <= m < |r| :: r[m] < n && !KeyBefore(fields, fields[r[m]].0, r[m])
    ensures forall a, b | 0 <= a < b < |r| :: r[a] < r[b]
    ensures forall j | 0 <= j < n :: KeyBefore(fields, fields[j].0, j) || j in r
    decreases n
  {
    if n == 0 then []
    else
      var r := KeyPositions(fields, n - 1);
      if KeyBefore(fields, fields[n - 1].0, n - 1) then r else r + [n - 1]
  }

  /** The position of the last member with the key of member `j`. */
  function LastOf(fields: seq<(string, JsonValue)>, j: nat): (r: nat)
    requires j < |fields|
    ensures r < |fields| && fields[r].0 == fields[j].0 && Get(fields, fields[j].0) == Some(fields[r].1)
  {
    var r := LastAt(fields, fields[j].0);
    if r < 0 then assert false; j else r
  }

  /** The dict `json.loads` builds from an object's members: each key once,
      where it first appears, with the value of its last member. */
  function Dict(fields: seq<(string, JsonValue)>): seq<(string, JsonValue)> {
    var ks := KeyPositions(fields, |fields|);
    seq(|ks|, m requires 0 <= m < |ks| => (fields[ks[m]].0, fields[LastOf(fields, ks[m])].1))
  }

  /** `Dict` holds every key of the object exactly once, with the value
      `dict.get` gives for it. */
  lemma DictIsDecoded(fields: seq<(string, JsonValue)>)
    ensures forall m | 0 <= m < |Dict(fields)| :: Get(fields, Dict(fields)[m].0) == Some(Dict(fields)[m].1)
    ensures forall a, b | 0 <= a < b < |Dict(fields)| :: Dict(fields)[a].0 != Dict(fields)[b].0
    ensures forall j | 0 <= j < |fields| :: exists m | 0 <= m < |Dict(fields)| :: Dict(fields)[m].0 == fields[j].0
  {
    var ks := KeyPositions(fields, |fields|);
    var d := Dict(fields);
    assert |d| == |ks| && forall m | 0 <= m < |ks| :: d[m].0 == fields[ks[m]].0;
    DictDistinct(fields, ks);
    DictCoversKeys(fields, ks);
  }

  lemma DictDistinct(fields: seq<(string, JsonValue)>, ks: seq<nat>)
    requires ks == KeyPositions(fields, |fields|)
    ensures forall a, b | 0 <= a < b < |ks| :: fields[ks[a]].0 != fields[ks[b]].0
  {
    forall a, b | 0 <= a < b < |ks| ensures fields[ks[a]].0 != fields[ks[b]].0 {
      assert ks[a] < ks[b] && !KeyBefore(fields, fields[ks[b]].0, ks[b]);
    }
  }

  lemma DictCoversKeys(fields: seq<(string, JsonValue)>, ks: seq<nat>)
    requires ks == KeyPositions(fields, |fields|)
    ensures forall j | 0 <= j < |fields| :: exists m | 0 <= m < |ks| :: fields[ks[m]].0 == fields[j].0
  {
    forall j | 0 <= j < |fields| ensures exists m | 0 <= m < |ks| :: fields[ks[m]].0 == fields[j].0 {
      FirstOfKeyListed(fields, ks, j);
    }
  }

  /** Every key of `fields[..j+1]` is listed at some position up to `j`. */
  lemma {:induction false} FirstOfKeyListed(fields: seq<(string, JsonValue)>, ks: seq<nat>, j: nat)
    requires ks == KeyPositions(fields, |fields|) && j < |fields|
    ensures exists m | 0 <= m < |ks| :: fields[ks[m]].0 == fields[j].0
    decreases j
  {
    if KeyBefore(fields, fields[j].0, j) {
      var i :| 0 <= i < j && fields[i].0 == fields[j].0;
      FirstOfKeyListed(fields, ks, i);
    } else {
      assert j in ks;
      var m :| 0 <= m < |ks| && ks[m] == j;
    }
  }

  /** `repr(v)` of a decoded value, as it appears inside a list or dict. An
      object prints as its `Dict`: each key once, at its first position, with
      the value of its last member. */
  function Repr(v: JsonValue): string
    decreases v
  {
    match v
    case JNull => "None"
    case JBool(b) => if b then "True" else "False"
    case JNumber(n) => Decimal(n)
    case JString(s) => "'" + s + "'"
    case JArray(items) =>
      "[" + Join(seq(|items|, i requires 0 <= i < |items| => Repr(items[i]))) + "]"
    case JObject(fields) =>
      var ks := KeyPositions(fields, |fields|);
      "{" + Join(seq(|ks|, m requires 0 <= m < |ks| =>
                     "'" + fields[ks[m]].0 + "': " + Repr(fields[LastOf(fields, ks[m])].1))) + "}"
  }

  /** An object prints as its `Dict`, member by member. */
  lemma ReprOfObject(fields: seq<(string, JsonValue)>) returns (parts: seq<string>)
    ensures Repr(JObject(fields)) == "{" + Join(parts) + "}"
    ensures |parts| == |Dict(fields)|
    ensures forall m | 0 <= m < |parts| :: parts[m] == "'" + Dict(fields)[m].0 + "': " + Repr(Dict(fields)[m].1)
  {
    var ks := KeyPositions(fields, |fields|);
    var d := Dict(fields);
    parts := seq(|ks|, m requires 0 <= m < |ks| =>
                 "'" + fields[ks[m]].0 + "': " + Repr(fields[LastOf(fields, ks[m])].1));
    assert Repr(JObject(fields)) == "{" + Join(parts) + "}";
    assert |d| == |ks|;
    forall m | 0 <= m < |ks| ensures parts[m] == "'" + d[m].0 + "': " + Repr(d[m].1) {
      assert d[m] == (fields[ks[m]].0, fields[LastOf(fields, ks[m])].1);
    }
  }

  /** Objects that decode to the same dict print the same: repeated keys
      collapse as they do in the decoder. */
  lemma ReprSameDict(f: seq<(string, JsonValue)>, g: seq<(string, JsonValue)>)
    requires Dict(f) == Dict(g)
    ensures Repr(JObject(f)) == Repr(JObject(g))
  {
    var pf := ReprOfObject(f);
    var pg := ReprOfObject(g);
    assert pf == pg;
  }

  /** The object `{"a":1,"a":2}` decodes to the dict `{"a":2}`. */
  lemma RepeatedKeyDict()
    ensures Dict([("a", JNumber(1)), ("a", JNumber(2))]) == [("a", JNumber(2))]
    ensures Dict([("a", JNumber(2))]) == [("a", JNumber(2))]
  {
    var f := [("a", JNumber(1)), ("a", JNumber(2))];
    assert f[0].0 == f[1].0;
    assert KeyBefore(f, f[1].0, 1);
    assert KeyPositions(f, 0) == [];
    assert KeyPositions(f, 1) == [0];
    assert KeyPositions(f, 2) == [0];
    assert LastOf(f, 0) == 1;
    var g := [("a", JNumber(2))];
    assert KeyPositions(g, 0) == [];
    assert KeyPositions(g, 1) == [0];
  }

  /** What an f-string placeholder `{d.get(k)}` prints: a missing key or a JSON
      `null` prints as `None`, a string prints bare, anything else as `str()`. */
  function Format(v: Option<JsonValue>): string {
    match v
    case None => "None"
    case Some(JString(s)) => s
    case Some(x) => Repr(x)
  }
}
