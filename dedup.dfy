/** The de-duplication loop of the `/recommend` handler: records are keyed by
    the text `f"{b.get('title')}|{b.get('author')}"`, the first record of each
    key is kept in order, and the scan stops once `desired` records are kept. */
module Dedup {
  import opened Wrappers
  import opened Json

  /** The key text of a record; `None` for an element that is not a dict,
      on which `b.get` raises `AttributeError`. */
  function KeyOf(b: JsonValue): (r: Option<string>)
    ensures r.Some? <==> b.JObject?
  {
    match b
    case JObject(fields) => Some(Format(Get(fields, "title")) + "|" + Format(Get(fields, "author")))
    case _ => None
  }

  /** Dicts whose `title` and `author` agree get the same key, whatever their
      other members: records that differ only in `reason` collapse. */
  lemma KeyOfSameFields(x: JsonValue, y: JsonValue)
    requires x.JObject? && y.JObject?
    requires Get(x.fields, "title") == Get(y.fields, "title")
    requires Get(x.fields, "author") == Get(y.fields, "author")
    ensures KeyOf(x) == KeyOf(y) && KeyOf(x).Some?
  {
  }

  /** Two texts joined by a `|` that the first does not contain split back
      uniquely. */
  lemma {:induction false} SplitAtBar(t1: string, a1: string, t2: string, a2: string)
    requires forall i | 0 <= i < |t1| :: t1[i] != '|'
    requires forall i | 0 <= i < |t2| :: t2[i] != '|'
    requires t1 + "|" + a1 == t2 + "|" + a2
    ensures t1 == t2 && a1 == a2
  {
    var k1, k2 := t1 + "|" + a1, t2 + "|" + a2;
    assert k1[|t1|] == '|' && forall i | 0 <= i < |t1| :: k1[i] == t1[i];
    assert k2[|t2|] == '|' && forall i | 0 <= i < |t2| :: k2[i] == t2[i];
    assert |t1| == |t2|;
    assert t1 == k1[..|t1|] && t2 == k2[..|t2|];
    assert a1 == k1[|t1| + 1..] && a2 == k2[|t2| + 1..];
  }

  /** For string titles without `|`, equal keys mean equal titles and equal
      authors: this is the case in which the key does identify the record. */
  lemma KeyOfIdentifies(x: JsonValue, y: JsonValue, t1: string, a1: string, t2: string, a2: string)
    requires x.JObject? && y.JObject?
    requires Get(x.fields, "title") == Some(JString(t1)) && Get(x.fields, "author") == Some(JString(a1))
    requires Get(y.fields, "title") == Some(JString(t2)) && Get(y.fields, "author") == Some(JString(a2))
    requires (forall i | 0 <= i < |t1| :: t1[i] != '|') && (forall i | 0 <= i < |t2| :: t2[i] != '|')
    requires KeyOf(x) == KeyOf(y)
    ensures t1 == t2 && a1 == a2
  {
    SplitAtBar(t1, a1, t2, a2);
  }

  /** The keys, under `key`, of the elements of `bs`. */
  function KeysOf(bs: seq<JsonValue>, key: JsonValue -> Option<string>): set<Option<string>> {
    set i | 0 <= i < |bs| :: key(bs[i])
  }

  /** The elements of `bs` whose key no earlier element has, in order: the
      reference the loop is measured against. The key function is a
      parameter so that the facts below hold for any key. */
  function FirstSeen(bs: seq<JsonValue>, key: JsonValue -> Option<string>): seq<JsonValue>
    decreases |bs|
  {
    if bs == [] then []
    else
      var init := bs[..|bs| - 1];
      FirstSeen(init, key) + (if key(bs[|bs| - 1]) in KeysOf(init, key) then [] else [bs[|bs| - 1]])
  }

  /** The index of the first element of `bs` that is not a dict, or `|bs|`. */
  function FirstBad(bs: seq<JsonValue>, i: nat): (r: nat)
    requires i <= |bs|
    ensures i <= r <= |bs|
    ensures forall j | i <= j < r :: bs[j].JObject?
    ensures r < |bs| ==> !bs[r].JObject?
    decreases |bs| - i
  {
    if i == |bs| || !bs[i].JObject? then i else FirstBad(bs, i + 1)
  }

  /** The first `n` elements of `s`, or all of them when there are fewer. */
  function Take(s: seq<JsonValue>, n: nat): (r: seq<JsonValue>)
    ensures |r| == if |s| <= n then |s| else n
    ensures r == s[..|r|]
  {
    if |s| <= n then s else s[..n]
  }

  /** Why the loop raises: an element it reached is not a dict. */
  datatype DedupError = NotARecord

  /** What the loop returns for `books`, a cap `desired` and keys `key`: it
      raises when it reaches an element that is not a dict before the cap is
      met, and otherwise returns the first `desired` first-seen records. */
  function DedupResult(books: seq<JsonValue>, desired: nat, key: JsonValue -> Option<string>)
    : Result<seq<JsonValue>, DedupError>
  {
    var bad := FirstBad(books, 0);
    if bad < |books| && |FirstSeen(books[..bad], key)| < desired then Err(NotARecord)
    else Ok(Take(FirstSeen(books, key), desired))
  }

  // ---------------------------------------------------------------------------
  // Facts about prefixes, used by the loop

  lemma {:induction false} FirstSeenStep(bs: seq<JsonValue>, key: JsonValue -> Option<string>, i: nat)
    requires i < |bs|
    ensures FirstSeen(bs[..i + 1], key) ==
      FirstSeen(bs[..i], key) + (if key(bs[i]) in KeysOf(bs[..i], key) then [] else [bs[i]])
    ensures KeysOf(bs[..i + 1], key) == KeysOf(bs[..i], key) + {key(bs[i])}
  {
    var p := bs[..i + 1];
    assert p[..|p| - 1] == bs[..i];
    assert p[|p| - 1] == bs[i];
    forall k | k in KeysOf(p, key) ensures k in KeysOf(bs[..i], key) + {key(bs[i])} {
      var j :| 0 <= j < |p| && key(p[j]) == k;
      if j < i {
        assert p[j] == bs[..i][j];
      }
    }
    forall k | k in KeysOf(bs[..i], key) ensures k in KeysOf(p, key) {
      var j :| 0 <= j < i && key(bs[..i][j]) == k;
      assert p[j] == bs[..i][j];
    }
  }

  /** The first-seen records of a prefix are a prefix of those of a longer one. */
  lemma {:induction false} FirstSeenPrefix(bs: seq<JsonValue>, key: JsonValue -> Option<string>, i: nat, j: nat)
    requires i <= j <= |bs|
    ensures |FirstSeen(bs[..i], key)| <= |FirstSeen(bs[..j], key)|
    ensures FirstSeen(bs[..i], key) == FirstSeen(bs[..j], key)[..|FirstSeen(bs[..i], key)|]
    decreases j - i
  {
    if i < j {
      FirstSeenPrefix(bs, key, i, j - 1);
      FirstSeenStep(bs, key, j - 1);
    }
  }

  // ---------------------------------------------------------------------------
  // Steps of the loop and the three ways it ends

  /** One pass of the loop body on the key text `k` of `books[i]`: the set of
      key texts seen and the records kept follow the prefix one element on. */
  lemma {:induction false} SeenStep(books: seq<JsonValue>, key: JsonValue -> Option<string>, i: nat,
                                    seen: set<string>, k: string)
    requires i < |books| && key(books[i]) == Some(k)
    requires forall x :: x in seen <==> Some(x) in KeysOf(books[..i], key)
    ensures forall x :: x in seen + {k} <==> Some(x) in KeysOf(books[..i + 1], key)
    ensures FirstSeen(books[..i + 1], key) == FirstSeen(books[..i], key) + (if k in seen then [] else [books[i]])
  {
    FirstSeenStep(books, key, i);
  }

  /** The loop meets a record that is not a dict before `desired` books are kept. */
  lemma {:induction false} ErrorAt(books: seq<JsonValue>, desired: nat, key: JsonValue -> Option<string>, i: nat)
    requires i < |books| && !books[i].JObject? && forall j | 0 <= j < i :: books[j].JObject?
    requires |FirstSeen(books[..i], key)| < desired
    ensures DedupResult(books, desired, key) == Err(NotARecord)
  {
    assert FirstBad(books, 0) == i;
  }

  /** The loop stops at `books[i]`, the record that brings the kept books to `desired`. */
  lemma {:induction false} CapAt(books: seq<JsonValue>, desired: nat, key: JsonValue -> Option<string>, i: nat)
    requires i < |books| && (forall j | 0 <= j <= i :: books[j].JObject?)
    requires |FirstSeen(books[..i + 1], key)| == desired
    ensures DedupResult(books, desired, key) == Ok(FirstSeen(books[..i + 1], key))
  {
    assert i < FirstBad(books, 0);
    FirstSeenPrefix(books, key, i + 1, |books|);
    FirstSeenPrefix(books, key, i + 1, FirstBad(books, 0));
    assert books[..|books|] == books;
  }

  /** The loop runs to the end of a list of dicts with fewer than `desired` keys. */
  lemma {:induction false} EndOf(books: seq<JsonValue>, desired: nat, key: JsonValue -> Option<string>)
    requires (forall j | 0 <= j < |books| :: books[j].JObject?) && |FirstSeen(books, key)| < desired
    ensures DedupResult(books, desired, key) == Ok(FirstSeen(books, key))
  {
    assert FirstBad(books, 0) == |books|;
  }

  // ---------------------------------------------------------------------------
  // The loop

  /** The de-duplication loop, with `seen` the set of key texts met so far.
      The ghost parameter `key` is the key function `KeyOf`; callers pass
      `KeyOf` itself. */
  method Dedup(books: seq<JsonValue>, desired: nat, ghost key: JsonValue -> Option<string>)
    returns (r: Result<seq<JsonValue>, DedupError>)
    requires desired >= 1
    requires forall b {:trigger KeyOf(b)} :: key(b) == KeyOf(b)
    ensures r == DedupResult(books, desired, key)
  {
    var uniq: seq<JsonValue> := [];
    var seen: set<string> := {};
    var i := 0;
    assert books[..0] == [];
    while i < |books|
      invariant 0 <= i <= |books|
      invariant forall j | 0 <= j < i :: books[j].JObject?
      invariant uniq == FirstSeen(books[..i], key)
      invariant forall k :: k in seen <==> Some(k) in KeysOf(books[..i], key)
      invariant |uniq| < desired
    {
      var b := books[i];
      if !b.JObject? {
        ErrorAt(books, desired, key, i);
        return Err(NotARecord);
      }
      var k := Format(Get(b.fields, "title")) + "|" + Format(Get(b.fields, "author"));
      assert KeyOf(b) == Some(k);
      SeenStep(books, key, i, seen, k);
      if k !in seen {
        seen := seen + {k};
        uniq := uniq + [b];
      }
      if |uniq| >= desired {
        CapAt(books, desired, key, i);
        return Ok(uniq);
      }
      i := i + 1;
    }
    assert books[..i] == books;
    EndOf(books, desired, key);
    return Ok(uniq);
  }

  // ---------------------------------------------------------------------------
  // Properties of the first-seen records

  lemma {:induction false} KeysOfAppend(a: seq<JsonValue>, b: seq<JsonValue>, key: JsonValue -> Option<string>)
    ensures KeysOf(a + b, key) == KeysOf(a, key) + KeysOf(b, key)
  {
    var ab := a + b;
    forall k | k in KeysOf(ab, key) ensures k in KeysOf(a, key) + KeysOf(b, key) {
      var j :| 0 <= j < |ab| && key(ab[j]) == k;
      if j < |a| {
        assert ab[j] == a[j];
      } else {
        assert ab[j] == b[j - |a|];
      }
    }
    forall k | k in KeysOf(a, key) + KeysOf(b, key) ensures k in KeysOf(ab, key) {
      if k in KeysOf(a, key) {
        var j :| 0 <= j < |a| && key(a[j]) == k;
        assert ab[j] == a[j];
      } else {
        var j :| 0 <= j < |b| && key(b[j]) == k;
        assert ab[|a| + j] == b[j];
      }
    }
  }

  /** The first-seen records have exactly the keys of `bs`, one record per key. */
  lemma {:induction false} FirstSeenKeys(bs: seq<JsonValue>, key: JsonValue -> Option<string>)
    ensures KeysOf(FirstSeen(bs, key), key) == KeysOf(bs, key)
    ensures |FirstSeen(bs, key)| == |KeysOf(bs, key)|
    decreases |bs|
  {
    if bs == [] {
      assert KeysOf(bs, key) == {};
    } else {
      var n := |bs| - 1;
      var init := bs[..n];
      assert bs[..n + 1] == bs;
      FirstSeenStep(bs, key, n);
      FirstSeenKeys(init, key);
      var f := FirstSeen(init, key);
      var extra := if key(bs[n]) in KeysOf(init, key) then [] else [bs[n]];
      KeysOfAppend(f, extra, key);
      if extra == [] {
        assert KeysOf(extra, key) == {};
      } else {
        assert KeysOf(extra, key) == {key(bs[n])} by {
          assert extra[0] == bs[n];
        }
      }
    }
  }

  /** No two first-seen records share a key. */
  lemma {:induction false} FirstSeenDistinct(bs: seq<JsonValue>, key: JsonValue -> Option<string>)
    ensures forall a, b | 0 <= a < b < |FirstSeen(bs, key)| :: key(FirstSeen(bs, key)[a]) != key(FirstSeen(bs, key)[b])
    decreases |bs|
  {
    if bs != [] {
      var n := |bs| - 1;
      var init := bs[..n];
      assert bs[..n + 1] == bs;
      FirstSeenStep(bs, key, n);
      FirstSeenDistinct(init, key);
      var f := FirstSeen(init, key);
      if key(bs[n]) !in KeysOf(init, key) {
        FirstSeenKeys(init, key);
        var g := f + [bs[n]];
        forall a, b | 0 <= a < b < |g| ensures key(g[a]) != key(g[b]) {
          assert g[a] == f[a];
          if b < |f| {
            assert g[b] == f[b];
          } else {
            assert key(f[a]) in KeysOf(f, key);
          }
        }
      }
    }
  }

  /** Every first-seen record is the first element of `bs` with its key. */
  lemma {:induction false} FirstSeenIsFirst(bs: seq<JsonValue>, key: JsonValue -> Option<string>, a: nat)
    requires a < |FirstSeen(bs, key)|
    ensures exists i | 0 <= i < |bs| :: bs[i] == FirstSeen(bs, key)[a]
              && forall j | 0 <= j < i :: key(bs[j]) != key(bs[i])
    decreases |bs|
  {
    var n := |bs| - 1;
    var init := bs[..n];
    assert bs[..n + 1] == bs;
    FirstSeenStep(bs, key, n);
    var f := FirstSeen(init, key);
    if a < |f| {
      FirstSeenIsFirst(init, key, a);
      var i :| 0 <= i < |init| && init[i] == f[a] && forall j | 0 <= j < i :: key(init[j]) != key(init[i]);
      assert bs[i] == init[i];
      assert forall j | 0 <= j < i :: bs[j] == init[j];
    } else {
      assert FirstSeen(bs, key)[a] == bs[n];
      assert forall j | 0 <= j < n :: key(bs[j]) != key(bs[n]) by {
        forall j | 0 <= j < n ensures key(bs[j]) != key(bs[n]) {
          assert bs[j] == init[j];
        }
      }
    }
  }

  /** The first-seen records are picked out of `bs` in order: `idx` gives,
      for each of them, its increasing position in `bs`. */
  lemma {:induction false} FirstSeenIndices(bs: seq<JsonValue>, key: JsonValue -> Option<string>)
    returns (idx: seq<nat>)
    ensures |idx| == |FirstSeen(bs, key)|
    ensures forall a | 0 <= a < |idx| :: idx[a] < |bs| && bs[idx[a]] == FirstSeen(bs, key)[a]
    ensures forall a, b | 0 <= a < b < |idx| :: idx[a] < idx[b]
    decreases |bs|
  {
    if bs == [] {
      return [];
    }
    var n := |bs| - 1;
    var init := bs[..n];
    assert bs[..n + 1] == bs;
    FirstSeenStep(bs, key, n);
    var f := FirstSeen(init, key);
    var pre := FirstSeenIndices(init, key);
    assert forall a | 0 <= a < |pre| :: bs[pre[a]] == init[pre[a]];
    if key(bs[n]) in KeysOf(init, key) {
      idx := pre;
    } else {
      idx := pre + [n];
      assert FirstSeen(bs, key) == f + [bs[n]];
      forall a | 0 <= a < |idx| ensures idx[a] < |bs| && bs[idx[a]] == FirstSeen(bs, key)[a] {
        if a < |pre| {
          assert idx[a] == pre[a];
        }
      }
    }
  }

  // ---------------------------------------------------------------------------
  // Properties of the loop's result

  /** A successful result holds at most `desired` records, with distinct keys;
      it is short of `desired` only when `books` has fewer distinct keys. */
  lemma DedupBounds(books: seq<JsonValue>, desired: nat, key: JsonValue -> Option<string>, uniq: seq<JsonValue>)
    requires DedupResult(books, desired, key) == Ok(uniq)
    ensures |uniq| <= desired
    ensures |uniq| == if |KeysOf(books, key)| <= desired then |KeysOf(books, key)| else desired
    ensures forall a, b | 0 <= a < b < |uniq| :: key(uniq[a]) != key(uniq[b])
  {
    FirstSeenKeys(books, key);
    FirstSeenDistinct(books, key);
  }

  /** Each record of a successful result is the first element of `books` with its key. */
  lemma DedupFirstOfKey(books: seq<JsonValue>, desired: nat, key: JsonValue -> Option<string>, uniq: seq<JsonValue>, a: nat)
    requires DedupResult(books, desired, key) == Ok(uniq) && a < |uniq|
    ensures exists i | 0 <= i < |books| ::
              books[i] == uniq[a] && forall j | 0 <= j < i :: key(books[j]) != key(books[i])
  {
    FirstSeenIsFirst(books, key, a);
  }

  /** A successful result is an order-preserving subsequence of `books`. */
  lemma DedupKeepsOrder(books: seq<JsonValue>, desired: nat, key: JsonValue -> Option<string>, uniq: seq<JsonValue>)
    returns (idx: seq<nat>)
    requires DedupResult(books, desired, key) == Ok(uniq)
    ensures |idx| == |uniq|
    ensures forall a | 0 <= a < |idx| :: idx[a] < |books| && books[idx[a]] == uniq[a]
    ensures forall a, b | 0 <= a < b < |idx| :: idx[a] < idx[b]
  {
    var all := FirstSeenIndices(books, key);
    idx := all[..|uniq|];
  }

  /** When the cap is not reached, every distinct key of `books` is represented. */
  lemma DedupKeepsAllKeys(books: seq<JsonValue>, desired: nat, key: JsonValue -> Option<string>, uniq: seq<JsonValue>)
    requires DedupResult(books, desired, key) == Ok(uniq) && |KeysOf(books, key)| <= desired
    ensures KeysOf(uniq, key) == KeysOf(books, key)
  {
    FirstSeenKeys(books, key);
  }

  /** The loop raises exactly when it reaches an element that is not a dict
      while fewer than `desired` records are kept. */
  lemma DedupFailsIff(books: seq<JsonValue>, desired: nat, key: JsonValue -> Option<string>)
    ensures DedupResult(books, desired, key).Err? <==>
      exists i | 0 <= i < |books| :: !books[i].JObject?
        && (forall j | 0 <= j < i :: books[j].JObject?) && |FirstSeen(books[..i], key)| < desired
  {
    var bad := FirstBad(books, 0);
    if DedupResult(books, desired, key).Err? {
      assert !books[bad].JObject?;
    }
  }

  /** A title that is an object with a repeated key prints as the decoded
      dict, so `{"a":1,"a":2}` and `{"a":2}` give the same key and the second
      record is dropped as a duplicate. */
  lemma RepeatedKeyTitlesCollide()
    ensures var x := JObject([("title", JObject([("a", JNumber(1)), ("a", JNumber(2))])), ("author", JString("z"))]);
            var y := JObject([("title", JObject([("a", JNumber(2))])), ("author", JString("z"))]);
            x != y && KeyOf(x) == KeyOf(y)
  {
    var tx, ty := JObject([("a", JNumber(1)), ("a", JNumber(2))]), JObject([("a", JNumber(2))]);
    var xf := [("title", tx), ("author", JString("z"))];
    var yf := [("title", ty), ("author", JString("z"))];
    assert "author"[0] != "title"[0];
    assert xf[..1] == [xf[0]] && yf[..1] == [yf[0]];
    assert Get(xf, "title") == Some(tx) && Get(yf, "title") == Some(ty);
    assert Get(xf, "author") == Get(yf, "author");
    RepeatedKeyDict();
    ReprSameDict(tx.fields, ty.fields);
    assert tx != ty by {
      assert |tx.fields| != |ty.fields|;
    }
  }

  /** A title containing `|` can collide with a different record's key: the
      second record below is dropped as a duplicate of the first. */
  lemma KeySeparatorAmbiguity()
    ensures var x := JObject([("title", JString("a|b")), ("author", JString("c"))]);
            var y := JObject([("title", JString("a")), ("author", JString("b|c"))]);
            x != y && DedupResult([x, y], 2, KeyOf) == Ok([x])
  {
    var xf := [("title", JString("a|b")), ("author", JString("c"))];
    var yf := [("title", JString("a")), ("author", JString("b|c"))];
    var x, y := JObject(xf), JObject(yf);
    assert "author"[0] != "title"[0];
    assert xf[..1] == [xf[0]] && yf[..1] == [yf[0]];
    assert Get(xf, "title") == Some(JString("a|b")) && Get(xf, "author") == Some(JString("c"));
    assert Get(yf, "title") == Some(JString("a")) && Get(yf, "author") == Some(JString("b|c"));
    assert "a|b" + "|" + "c" == "a" + "|" + "b|c";
    assert KeyOf(x) == KeyOf(y);
    var xs := [x, y];
    assert xs[..1] == [x] && xs[..1][..0] == [];
    assert FirstSeen([x], KeyOf) == [x];
    assert KeysOf([x], KeyOf) == {KeyOf(x)};
    assert FirstSeen(xs, KeyOf) == [x];
    assert FirstBad(xs, 0) == 2;
  }
}
