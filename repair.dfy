/** The text repair applied before re-parsing a reply (`fix_missing_commas`):
    two regular-expression substitutions, each written as a left-to-right
    scanner that replaces the leftmost non-overlapping matches. */
module Repair {
  import opened Text

  /** `t` starts with a match of `}\s*{`. */
  predicate GlueStarts(t: string) {
    |t| >= 2 && t[0] == '}' && 1 + SkipSpace(t[1..]) < |t| && t[1 + SkipSpace(t[1..])] == '{'
  }

  /** `t` starts with a match of `,\s*]`. */
  predicate TailStarts(t: string) {
    |t| >= 2 && t[0] == ',' && 1 + SkipSpace(t[1..]) < |t| && t[1 + SkipSpace(t[1..])] == ']'
  }

  /** No position of `s` starts a `}\s*{` match. */
  ghost predicate NoGlue(s: string) {
    forall i | 0 <= i < |s| :: !GlueStarts(s[i..])
  }

  /** No position of `s` starts a `,\s*]` match. */
  ghost predicate NoTail(s: string) {
    forall i | 0 <= i < |s| :: !TailStarts(s[i..])
  }

  /** `OBJ_GLUE.sub('},{', s)`. */
  function Glue(s: string): string
    decreases |s|
  {
    if s == [] then []
    else if GlueStarts(s) then "},{" + Glue(s[2 + SkipSpace(s[1..])..])
    else [s[0]] + Glue(s[1..])
  }

  /** `ARR_TAIL.sub(']', s)`. */
  function Tail(s: string): string
    decreases |s|
  {
    if s == [] then []
    else if TailStarts(s) then "]" + Tail(s[2 + SkipSpace(s[1..])..])
    else [s[0]] + Tail(s[1..])
  }

  /** `fix_missing_commas`: the glue step first, then the tail step. */
  function Fix(s: string): string {
    Tail(Glue(s))
  }

  /** The characters of `s` other than whitespace and commas, in order. */
  function Skeleton(s: string): string {
    if s == [] then []
    else (if IsSpace(s[0]) || s[0] == ',' then [] else [s[0]]) + Skeleton(s[1..])
  }

  /** `a` can be obtained from `b` by deleting characters. */
  ghost predicate Subsequence(a: string, b: string) {
    if a == [] then true
    else if b == [] then false
    else if a[0] == b[0] then Subsequence(a[1..], b[1..])
    else Subsequence(a, b[1..])
  }

  // ---------------------------------------------------------------------------
  // Helpers

  lemma SuffixOfSuffix(s: string, d: nat, i: nat)
    requires d + i <= |s|
    ensures s[d..][i..] == s[d + i..]
  {}

  lemma {:induction false} SkeletonAppend(a: string, b: string)
    ensures Skeleton(a + b) == Skeleton(a) + Skeleton(b)
  {
    if a == [] {
      assert a + b == b;
    } else {
      assert (a + b)[1..] == a[1..] + b;
      SkeletonAppend(a[1..], b);
    }
  }

  /** A match of either pattern, `c\s*d`, leaves only `c` and `d` in the skeleton. */
  lemma {:induction false} SkeletonOfMatch(s: string, k: nat)
    requires 2 + k <= |s|
    requires forall i | 0 <= i < k :: IsSpace(s[1..][i])
    ensures Skeleton(s) == Skeleton([s[0]]) + Skeleton([s[1 + k]]) + Skeleton(s[2 + k..])
  {
    var w, rest := s[1..1 + k], s[2 + k..];
    assert forall i | 0 <= i < |w| :: IsSpace(w[i]) by {
      forall i | 0 <= i < |w| ensures IsSpace(w[i]) {
        assert w[i] == s[1..][i];
      }
    }
    assert s == [s[0]] + w + [s[1 + k]] + rest;
    SkeletonAppend([s[0]] + w + [s[1 + k]], rest);
    SkeletonAppend([s[0]] + w, [s[1 + k]]);
    SkeletonAppend([s[0]], w);
    SkeletonOfSpaces(w);
  }

  lemma {:induction false} SkeletonOfSpaces(w: string)
    requires forall i | 0 <= i < |w| :: IsSpace(w[i])
    ensures Skeleton(w) == []
  {
    if w != [] {
      SkeletonOfSpaces(w[1..]);
    }
  }

  /** The glue step keeps the first character and the leading whitespace run,
      and the first character after that run. */
  lemma {:induction false} GlueFront(s: string)
    ensures s != [] ==> Glue(s) != [] && Glue(s)[0] == s[0]
    ensures SkipSpace(Glue(s)) == SkipSpace(s)
    ensures SkipSpace(s) < |s| ==> SkipSpace(s) < |Glue(s)| && Glue(s)[SkipSpace(s)] == s[SkipSpace(s)]
    ensures SkipSpace(s) == |s| ==> Glue(s) == s
    decreases |s|
  {
    if s != [] && !GlueStarts(s) {
      assert Glue(s) == [s[0]] + Glue(s[1..]);
      assert Glue(s)[1..] == Glue(s[1..]);
      if IsSpace(s[0]) {
        GlueFront(s[1..]);
      }
    }
  }

  // ---------------------------------------------------------------------------
  // The glue step

  /** A character in front of glue-free text that does not start a match
      keeps it glue-free. */
  lemma {:induction false} NoGlueCons(c: char, t: string)
    requires NoGlue(t) && !GlueStarts([c] + t)
    ensures NoGlue([c] + t)
  {
    var u := [c] + t;
    forall i | 0 <= i < |u| ensures !GlueStarts(u[i..]) {
      if i == 0 {
        assert u[0..] == u;
      } else {
        assert u[i..] == t[i - 1..];
      }
    }
  }

  /** The glue step leaves the whitespace run after a first character alone,
      so it does not create a match there. */
  lemma {:induction false} NoGlueFront(c: char, t: string)
    requires !GlueStarts([c] + t)
    ensures !GlueStarts([c] + Glue(t))
  {
    GlueFront(t);
    assert ([c] + t)[1..] == t;
    assert ([c] + Glue(t))[1..] == Glue(t);
  }

  /** After the glue step no `}\s*{` occurrence is left. */
  lemma {:induction false} GlueLeavesNoGlue(s: string)
    ensures NoGlue(Glue(s))
    decreases |s|
  {
    if s == [] {
    } else if GlueStarts(s) {
      var g := Glue(s[2 + SkipSpace(s[1..])..]);
      GlueLeavesNoGlue(s[2 + SkipSpace(s[1..])..]);
      var g2 := ['{'] + g;
      var g1 := [','] + g2;
      NoGlueCons('{', g);
      assert g1[1..] == g2;
      NoGlueCons(',', g2);
      assert (['}'] + g1)[1..] == g1;
      NoGlueCons('}', g1);
      assert "},{" + g == ['}'] + g1;
    } else {
      GlueLeavesNoGlue(s[1..]);
      assert [s[0]] + s[1..] == s;
      NoGlueFront(s[0], s[1..]);
      NoGlueCons(s[0], Glue(s[1..]));
    }
  }

  /** Text without a `}\s*{` occurrence passes through the glue step unchanged. */
  lemma {:induction false} GlueFixesGlueFree(s: string)
    requires NoGlue(s)
    ensures Glue(s) == s
    decreases |s|
  {
    if s != [] {
      assert !GlueStarts(s[0..]) && s[0..] == s;
      forall i | 0 <= i < |s[1..]| ensures !GlueStarts(s[1..][i..]) {
        SuffixOfSuffix(s, 1, i);
        assert !GlueStarts(s[1 + i..]);
      }
      GlueFixesGlueFree(s[1..]);
    }
  }

  /** The glue step changes the text exactly when it holds a `}\s*{` occurrence. */
  lemma {:induction false} GlueUnchangedIff(s: string)
    ensures Glue(s) == s <==> NoGlue(s)
    decreases |s|
  {
    if NoGlue(s) {
      GlueFixesGlueFree(s);
    } else if s != [] {
      if GlueStarts(s) {
        assert Glue(s)[1] == ',';
        assert IsSpace(s[1]) || s[1] == '{';
      } else {
        var i :| 0 <= i < |s| && GlueStarts(s[i..]);
        assert i != 0;
        SuffixOfSuffix(s, 1, i - 1);
        assert !NoGlue(s[1..]) by { assert GlueStarts(s[1..][i - 1..]); }
        GlueUnchangedIff(s[1..]);
        assert Glue(s) == [s[0]] + Glue(s[1..]);
        assert Glue(s)[1..] == Glue(s[1..]);
      }
    }
  }

  /** Applying the glue step twice is the same as applying it once. */
  lemma GlueIdempotent(s: string)
    ensures Glue(Glue(s)) == Glue(s)
  {
    GlueLeavesNoGlue(s);
    GlueFixesGlueFree(Glue(s));
  }

  /** The glue step only turns whitespace into commas: every other character
      stays, in order. */
  lemma {:induction false} GlueKeepsSkeleton(s: string)
    ensures Skeleton(Glue(s)) == Skeleton(s)
    decreases |s|
  {
    if s == [] {
    } else if GlueStarts(s) {
      var k := SkipSpace(s[1..]);
      var rest := s[2 + k..];
      GlueKeepsSkeleton(rest);
      SkeletonAppend("},{", Glue(rest));
      SkeletonOfMatch(s, k);
    } else {
      GlueKeepsSkeleton(s[1..]);
      SkeletonAppend([s[0]], Glue(s[1..]));
      SkeletonAppend([s[0]], s[1..]);
      assert [s[0]] + s[1..] == s;
    }
  }

  lemma {:induction false} SubsequenceSkip(a: string, w: string, b: string)
    requires a != [] ==> forall i | 0 <= i < |w| :: w[i] != a[0]
    requires Subsequence(a, b)
    ensures Subsequence(a, w + b)
    decreases |w|
  {
    if w != [] && a != [] {
      assert (w + b)[1..] == w[1..] + b;
      SubsequenceSkip(a, w[1..], b);
    } else if w == [] {
      assert w + b == b;
    }
  }

  /** Replacing a `,\s*]` match at the front by `]` only deletes characters. */
  lemma {:induction false} SubsequenceOfMatch(s: string, k: nat, u: string)
    requires 2 + k <= |s| && s[0] == ',' && s[1 + k] == ']'
    requires forall i | 0 <= i < k :: IsSpace(s[1..][i])
    requires Subsequence(u, s[2 + k..])
    ensures Subsequence("]" + u, s)
  {
    var t := "]" + u;
    assert t[1..] == u;
    assert s[1 + k..][1..] == s[2 + k..];
    assert Subsequence(t, s[1 + k..]);
    var w := s[1..1 + k];
    forall i | 0 <= i < |w| ensures w[i] != t[0] {
      assert w[i] == s[1..][i];
    }
    SubsequenceSkip(t, w, s[1 + k..]);
    assert s[1..1 + k] + s[1 + k..] == s[1..];
  }

  /** The tail step only deletes characters: its output is a subsequence of its input. */
  lemma {:induction false} TailDeletesOnly(s: string)
    ensures Subsequence(Tail(s), s)
    decreases |s|
  {
    if s == [] {
    } else if TailStarts(s) {
      var k := SkipSpace(s[1..]);
      TailDeletesOnly(s[2 + k..]);
      SubsequenceOfMatch(s, k, Tail(s[2 + k..]));
    } else {
      TailDeletesOnly(s[1..]);
      assert Tail(s) == [s[0]] + Tail(s[1..]);
      assert Tail(s)[1..] == Tail(s[1..]);
    }
  }

  /** The tail step deletes only commas and whitespace: every other character
      stays, in order. */
  lemma {:induction false} TailKeepsSkeleton(s: string)
    ensures Skeleton(Tail(s)) == Skeleton(s)
    decreases |s|
  {
    if s == [] {
    } else if TailStarts(s) {
      var k := SkipSpace(s[1..]);
      var rest := s[2 + k..];
      TailKeepsSkeleton(rest);
      SkeletonAppend("]", Tail(rest));
      SkeletonOfMatch(s, k);
    } else {
      TailKeepsSkeleton(s[1..]);
      SkeletonAppend([s[0]], Tail(s[1..]));
      SkeletonAppend([s[0]], s[1..]);
      assert [s[0]] + s[1..] == s;
    }
  }

  /** Text without a `,\s*]` occurrence passes through the tail step unchanged. */
  lemma {:induction false} TailFixesTailFree(s: string)
    requires NoTail(s)
    ensures Tail(s) == s
    decreases |s|
  {
    if s != [] {
      assert !TailStarts(s[0..]) && s[0..] == s;
      forall i | 0 <= i < |s[1..]| ensures !TailStarts(s[1..][i..]) {
        SuffixOfSuffix(s, 1, i);
        assert !TailStarts(s[1 + i..]);
      }
      TailFixesTailFree(s[1..]);
    }
  }

  /** The tail step changes the text exactly when it holds a `,\s*]` occurrence:
      each match loses its comma and whitespace, so the text gets shorter. */
  lemma {:induction false} TailUnchangedIff(s: string)
    ensures Tail(s) == s <==> NoTail(s)
    ensures !NoTail(s) ==> |Tail(s)| < |s|
    decreases |s|
  {
    if NoTail(s) {
      TailFixesTailFree(s);
    } else if s != [] {
      if TailStarts(s) {
        var rest := s[2 + SkipSpace(s[1..])..];
        TailShorter(rest);
      } else {
        var i :| 0 <= i < |s| && TailStarts(s[i..]);
        assert i != 0;
        SuffixOfSuffix(s, 1, i - 1);
        assert !NoTail(s[1..]) by { assert TailStarts(s[1..][i - 1..]); }
        TailUnchangedIff(s[1..]);
        assert Tail(s) == [s[0]] + Tail(s[1..]);
      }
    }
  }

  lemma {:induction false} TailShorter(s: string)
    ensures |Tail(s)| <= |s|
    decreases |s|
  {
    if s != [] {
      if TailStarts(s) {
        TailShorter(s[2 + SkipSpace(s[1..])..]);
      } else {
        TailShorter(s[1..]);
      }
    }
  }

  /** The tail step is not idempotent: a doubled comma leaves one behind. */
  lemma TailNotIdempotent()
    ensures Tail(",,]") == ",]" && Tail(Tail(",,]")) == "]"
  {
    assert !TailStarts(",,]") && ",,]"[1..] == ",]";
    assert TailStarts(",]") && ",]"[2..] == [];
    assert Tail(",]") == "]";
  }

  // ---------------------------------------------------------------------------
  // Both steps

  /** `fix_missing_commas` never touches a character other than whitespace and commas. */
  lemma FixKeepsSkeleton(s: string)
    ensures Skeleton(Fix(s)) == Skeleton(s)
  {
    GlueKeepsSkeleton(s);
    TailKeepsSkeleton(Glue(s));
  }

  // ---------------------------------------------------------------------------
  // Locality: each step rewrites its matches and nothing else

  /** Text after a non-whitespace character does not move the end of a leading run. */
  lemma {:induction false} SkipSpaceAppend(x: string, y: string)
    requires SkipSpace(x) < |x|
    ensures SkipSpace(x + y) == SkipSpace(x)
    decreases |x|
  {
    if IsSpace(x[0]) {
      assert (x + y)[1..] == x[1..] + y;
      SkipSpaceAppend(x[1..], y);
    }
  }

  /** A leading run that ends inside `x` is the leading run of `x`. */
  lemma {:induction false} SkipSpacePrefix(x: string, y: string)
    requires SkipSpace(x + y) < |x|
    ensures SkipSpace(x) == SkipSpace(x + y)
    decreases |x|
  {
    if IsSpace((x + y)[0]) {
      assert (x + y)[1..] == x[1..] + y;
      SkipSpacePrefix(x[1..], y);
    }
  }

  /** A whitespace run followed by a non-whitespace character is skipped whole. */
  lemma {:induction false} SkipSpaceOfRun(w: string, y: string)
    requires forall i | 0 <= i < |w| :: IsSpace(w[i])
    requires y != [] && !IsSpace(y[0])
    ensures SkipSpace(w + y) == |w|
    decreases |w|
  {
    if w != [] {
      assert (w + y)[1..] == w[1..] + y;
      SkipSpaceOfRun(w[1..], y);
    }
  }

  /** No `,\s*]` match of `a + b` starts in `a` and ends in `b`. */
  predicate TailCut(a: string, b: string) {
    forall p | 0 <= p < |a| && TailStarts((a + b)[p..]) :: p + 2 + SkipSpace((a + b)[p + 1..]) <= |a|
  }

  /** No `}\s*{` match of `a + b` starts in `a` and ends in `b`. */
  predicate GlueCut(a: string, b: string) {
    forall p | 0 <= p < |a| && GlueStarts((a + b)[p..]) :: p + 2 + SkipSpace((a + b)[p + 1..]) <= |a|
  }

  /** A cut that no match straddles is one for the text after any of its positions. */
  lemma TailCutRest(a: string, b: string, e: nat)
    requires TailCut(a, b) && e <= |a|
    ensures TailCut(a[e..], b)
  {
    var s := a + b;
    forall p | 0 <= p < |a| - e && TailStarts((a[e..] + b)[p..])
      ensures p + 2 + SkipSpace((a[e..] + b)[p + 1..]) <= |a| - e
    {
      assert (a[e..] + b)[p..] == s[e + p..];
      assert (a[e..] + b)[p + 1..] == s[e + p + 1..];
    }
  }

  lemma GlueCutRest(a: string, b: string, e: nat)
    requires GlueCut(a, b) && e <= |a|
    ensures GlueCut(a[e..], b)
  {
    var s := a + b;
    forall p | 0 <= p < |a| - e && GlueStarts((a[e..] + b)[p..])
      ensures p + 2 + SkipSpace((a[e..] + b)[p + 1..]) <= |a| - e
    {
      assert (a[e..] + b)[p..] == s[e + p..];
      assert (a[e..] + b)[p + 1..] == s[e + p + 1..];
    }
  }

  /** A match at the front of `a` is one at the front of `a + b`, of the same length. */
  lemma TailStartsExtend(a: string, b: string)
    requires a != []
    ensures (a + b)[1..] == a[1..] + b
    ensures TailStarts(a) ==> TailStarts(a + b) && SkipSpace((a + b)[1..]) == SkipSpace(a[1..])
  {
    assert (a + b)[1..] == a[1..] + b;
    if TailStarts(a) {
      SkipSpaceAppend(a[1..], b);
    }
  }

  lemma GlueStartsExtend(a: string, b: string)
    requires a != []
    ensures (a + b)[1..] == a[1..] + b
    ensures GlueStarts(a) ==> GlueStarts(a + b) && SkipSpace((a + b)[1..]) == SkipSpace(a[1..])
  {
    assert (a + b)[1..] == a[1..] + b;
    if GlueStarts(a) {
      SkipSpaceAppend(a[1..], b);
    }
  }

  /** A match at the front of `a + b`, when no match straddles the cut, is one
      at the front of `a`. */
  lemma TailStartsShrink(a: string, b: string)
    requires a != [] && TailCut(a, b) && TailStarts(a + b)
    ensures TailStarts(a) && 2 + SkipSpace(a[1..]) <= |a|
    ensures (a + b)[2 + SkipSpace(a[1..])..] == a[2 + SkipSpace(a[1..])..] + b
    ensures SkipSpace(a[1..]) == SkipSpace((a + b)[1..])
  {
    assert (a + b)[0..] == a + b;
    assert (a + b)[1..] == a[1..] + b;
    SkipSpacePrefix(a[1..], b);
  }

  lemma GlueStartsShrink(a: string, b: string)
    requires a != [] && GlueCut(a, b) && GlueStarts(a + b)
    ensures GlueStarts(a) && 2 + SkipSpace(a[1..]) <= |a|
    ensures (a + b)[2 + SkipSpace(a[1..])..] == a[2 + SkipSpace(a[1..])..] + b
    ensures SkipSpace(a[1..]) == SkipSpace((a + b)[1..])
  {
    assert (a + b)[0..] == a + b;
    assert (a + b)[1..] == a[1..] + b;
    SkipSpacePrefix(a[1..], b);
  }

  /** The scan over `a + b` and over `a` take the same match at the front. */
  lemma TailUnfoldMatch(a: string, b: string)
    requires TailStarts(a) && TailStarts(a + b) && SkipSpace((a + b)[1..]) == SkipSpace(a[1..])
    ensures Tail(a + b) == "]" + Tail(a[2 + SkipSpace(a[1..])..] + b)
    ensures Tail(a) == "]" + Tail(a[2 + SkipSpace(a[1..])..])
  {
    var e := 2 + SkipSpace(a[1..]);
    assert (a + b)[e..] == a[e..] + b;
  }

  /** The scan over `a + b` and over `a` copy the same character at the front. */
  lemma TailUnfoldPlain(a: string, b: string)
    requires a != [] && !TailStarts(a) && !TailStarts(a + b)
    ensures Tail(a + b) == [a[0]] + Tail(a[1..] + b)
    ensures Tail(a) == [a[0]] + Tail(a[1..])
  {
    assert (a + b)[1..] == a[1..] + b;
  }

  /** One step of the scan over `a + b` when no match straddles the cut: it
      consumes the same `e` characters of `a` and emits the same text `h` as
      the scan over `a`. */
  lemma TailStep(a: string, b: string) returns (e: nat, h: string)
    requires a != [] && TailCut(a, b)
    ensures 0 < e <= |a| && TailCut(a[e..], b)
    ensures Tail(a + b) == h + Tail(a[e..] + b) && Tail(a) == h + Tail(a[e..])
  {
    TailStartsExtend(a, b);
    if TailStarts(a + b) {
      TailStartsShrink(a, b);
      e, h := 2 + SkipSpace(a[1..]), "]";
      TailUnfoldMatch(a, b);
    } else {
      e, h := 1, [a[0]];
      TailUnfoldPlain(a, b);
    }
    TailCutRest(a, b, e);
  }

  /** The tail step works on the two parts of a text separately whenever no
      match straddles the cut: each match is rewritten where it stands and
      every other character is copied. */
  lemma {:induction false} TailSplit(a: string, b: string)
    requires TailCut(a, b)
    ensures Tail(a + b) == Tail(a) + Tail(b)
    decreases |a|
  {
    if a == [] {
      assert a + b == b;
    } else {
      var e, h := TailStep(a, b);
      TailSplit(a[e..], b);
    }
  }


  /** The scan over `a + b` and over `a` take the same match at the front. */
  lemma GlueUnfoldMatch(a: string, b: string)
    requires GlueStarts(a) && GlueStarts(a + b) && SkipSpace((a + b)[1..]) == SkipSpace(a[1..])
    ensures Glue(a + b) == "},{" + Glue(a[2 + SkipSpace(a[1..])..] + b)
    ensures Glue(a) == "},{" + Glue(a[2 + SkipSpace(a[1..])..])
  {
    var e := 2 + SkipSpace(a[1..]);
    assert (a + b)[e..] == a[e..] + b;
  }

  /** The scan over `a + b` and over `a` copy the same character at the front. */
  lemma GlueUnfoldPlain(a: string, b: string)
    requires a != [] && !GlueStarts(a) && !GlueStarts(a + b)
    ensures Glue(a + b) == [a[0]] + Glue(a[1..] + b)
    ensures Glue(a) == [a[0]] + Glue(a[1..])
  {
    assert (a + b)[1..] == a[1..] + b;
  }

  /** One step of the scan over `a + b` when no match straddles the cut: it
      consumes the same `e` characters of `a` and emits the same text `h` as
      the scan over `a`. */
  lemma GlueStep(a: string, b: string) returns (e: nat, h: string)
    requires a != [] && GlueCut(a, b)
    ensures 0 < e <= |a| && GlueCut(a[e..], b)
    ensures Glue(a + b) == h + Glue(a[e..] + b) && Glue(a) == h + Glue(a[e..])
  {
    GlueStartsExtend(a, b);
    if GlueStarts(a + b) {
      GlueStartsShrink(a, b);
      e, h := 2 + SkipSpace(a[1..]), "},{";
      GlueUnfoldMatch(a, b);
    } else {
      e, h := 1, [a[0]];
      GlueUnfoldPlain(a, b);
    }
    GlueCutRest(a, b, e);
  }

  /** The glue step works on the two parts of a text separately whenever no
      match straddles the cut. */
  lemma {:induction false} GlueSplit(a: string, b: string)
    requires GlueCut(a, b)
    ensures Glue(a + b) == Glue(a) + Glue(b)
    decreases |a|
  {
    if a == [] {
      assert a + b == b;
    } else {
      var e, h := GlueStep(a, b);
      GlueSplit(a[e..], b);
    }
  }


  /** No match straddles a cut after a character other than `,` and whitespace. */
  lemma TailCutAfterPlain(a: string, b: string)
    requires a == [] || (a[|a| - 1] != ',' && !IsSpace(a[|a| - 1]))
    ensures TailCut(a, b)
  {
    var s := a + b;
    forall p | 0 <= p < |a| && TailStarts(s[p..]) ensures p + 2 + SkipSpace(s[p + 1..]) <= |a| {
      var k := SkipSpace(s[p + 1..]);
      assert forall i | p < i < p + 1 + k :: IsSpace(s[i]) by {
        forall i | p < i < p + 1 + k ensures IsSpace(s[i]) {
          assert s[p + 1..][i - p - 1] == s[i];
        }
      }
      assert s[p] == ',' && s[|a| - 1] == a[|a| - 1];
    }
  }

  /** No match straddles a cut after a character other than `}` and whitespace. */
  lemma GlueCutAfterPlain(a: string, b: string)
    requires a == [] || (a[|a| - 1] != '}' && !IsSpace(a[|a| - 1]))
    ensures GlueCut(a, b)
  {
    var s := a + b;
    forall p | 0 <= p < |a| && GlueStarts(s[p..]) ensures p + 2 + SkipSpace(s[p + 1..]) <= |a| {
      var k := SkipSpace(s[p + 1..]);
      assert forall i | p < i < p + 1 + k :: IsSpace(s[i]) by {
        forall i | p < i < p + 1 + k ensures IsSpace(s[i]) {
          assert s[p + 1..][i - p - 1] == s[i];
        }
      }
      assert s[p] == '}' && s[|a| - 1] == a[|a| - 1];
    }
  }

  /** The glue step keeps the last character of a text. */
  lemma {:induction false} GlueKeepsLast(a: string)
    requires a != []
    ensures Glue(a) != [] && Glue(a)[|Glue(a)| - 1] == a[|a| - 1]
    decreases |a|
  {
    if GlueStarts(a) {
      var rest := a[2 + SkipSpace(a[1..])..];
      if rest != [] {
        GlueKeepsLast(rest);
        assert rest[|rest| - 1] == a[|a| - 1];
      }
    } else if |a| > 1 {
      GlueKeepsLast(a[1..]);
    }
  }

  /** `fix_missing_commas` works on the two parts of a text separately, when
      the first part ends in a character that no match can continue from. */
  lemma FixSplit(a: string, b: string)
    requires a == [] || (a[|a| - 1] != '}' && a[|a| - 1] != ',' && !IsSpace(a[|a| - 1]))
    ensures Fix(a + b) == Fix(a) + Fix(b)
  {
    GlueCutAfterPlain(a, b);
    GlueSplit(a, b);
    if a != [] {
      GlueKeepsLast(a);
    }
    TailCutAfterPlain(Glue(a), Glue(b));
    TailSplit(Glue(a), Glue(b));
  }

  /** One match of `,\s*]` becomes `]`. */
  lemma TailOfMatch(w: string)
    requires forall i | 0 <= i < |w| :: IsSpace(w[i])
    ensures Tail(",") == "," && Tail("," + w + "]") == "]"
  {
    var s := "," + w + "]";
    assert s[1..] == w + "]";
    SkipSpaceOfRun(w, "]");
    assert s[2 + |w|..] == [];
  }

  /** One match of `}\s*{` becomes `},{`, whatever the whitespace. */
  lemma GlueOfMatch(w: string)
    requires forall i | 0 <= i < |w| :: IsSpace(w[i])
    ensures Glue("}") == "}" && Glue("}" + w + "{") == "},{"
  {
    var s := "}" + w + "{";
    assert s[1..] == w + "{";
    SkipSpaceOfRun(w, "{");
    assert s[2 + |w|..] == [];
  }

  /** No match of `, ,]` straddles the cut after `, `. */
  lemma TailAfterCommaCut()
    ensures TailCut(", ", ",]")
  {
  }

  /** A match right after a comma is rewritten and the comma before it kept. */
  lemma TailAfterComma()
    ensures Tail(", ,]") == ", ]"
  {
    assert ", ,]" == ", " + ",]";
    TailAfterCommaCut();
    TailSplit(", ", ",]");
    TailOfMatch("");
  }

  /** No match of `}}{` straddles the cut after the first `}`. */
  lemma GlueAfterBraceCut()
    ensures GlueCut("}", "}{")
  {
  }

  /** A match right after a `}` is rewritten and the `}` before it kept. */
  lemma GlueAfterBrace()
    ensures Glue("}}{") == "}},{"
  {
    assert "}}{" == "}" + "}{";
    GlueAfterBraceCut();
    GlueSplit("}", "}{");
    GlueOfMatch("");
  }

  /** No match of `} }{` straddles the cut after `} `. */
  lemma GlueAfterSpaceCut()
    ensures GlueCut("} ", "}{")
  {
  }

  /** A match right after whitespace after a `}` is rewritten and the text
      before it kept. */
  lemma GlueAfterSpace()
    ensures Glue("} }{") == "} },{"
  {
    assert "} }{" == "} " + "}{";
    GlueAfterSpaceCut();
    GlueSplit("} ", "}{");
    GlueOfMatch("");
  }

  /** Text holding neither defect is returned unchanged. */
  lemma FixIdentityOnCleanText(s: string)
    requires NoGlue(s) && NoTail(s)
    ensures Fix(s) == s
  {
    GlueFixesGlueFree(s);
    TailFixesTailFree(s);
  }
}
