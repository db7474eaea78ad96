/**
 The page slug: `system.toLowerCase().replace(/\s+/g, '-')`, the name a system
 page is written under and the target the index page links to.
 */
module Slugs {
  import opened Ascii
  import opened Seqs

  predicate AllWhitespace(s: string) {
    forall i :: 0 <= i < |s| ==> IsWhitespace(s[i])
  }

  predicate NoWhitespace(s: string) {
    forall i :: 0 <= i < |s| ==> !IsWhitespace(s[i])
  }

  /** Length of the maximal whitespace run at the front of `s`: what the greedy
      `\s+` matches when a match starts at index 0. */
  function RunLength(s: string): (k: nat)
    requires |s| > 0 && IsWhitespace(s[0])
    ensures 1 <= k <= |s|
    ensures AllWhitespace(s[..k])
    ensures k < |s| ==> !IsWhitespace(s[k])
  {
    if |s| == 1 || !IsWhitespace(s[1]) then 1 else 1 + RunLength(s[1..])
  }

  /** Lower-cases every character and replaces each maximal whitespace run,
      scanned left to right as the global regular expression does, by one `-`. */
  function Slug(s: string): (r: string)
    ensures NoWhitespace(r)
    ensures forall i :: 0 <= i < |r| ==> !IsUpper(r[i])
    ensures |r| <= |s|
    ensures r == [] <==> s == []
  {
    if s == [] then []
    else if IsWhitespace(s[0]) then "-" + Slug(s[RunLength(s)..])
    else [ToLower(s[0])] + Slug(s[1..])
  }

  /** File name of a system page (and the `href` the index uses for it). */
  function FileName(system: string): (f: string)
    ensures |f| >= 5 && f[|f| - 5..] == ".html"
    ensures f[..|f| - 5] == Slug(system)
  {
    Slug(system) + ".html"
  }

  /** A maximal whitespace run becomes exactly one hyphen. */
  lemma SlugOfRun(w: string, rest: string)
    requires |w| > 0 && AllWhitespace(w)
    requires rest == [] || !IsWhitespace(rest[0])
    ensures Slug(w + rest) == "-" + Slug(rest)
  {
    var s := w + rest;
    RunLengthOfRun(w, rest);
    assert s[|w|..] == rest;
  }

  lemma {:induction false} RunLengthOfRun(w: string, rest: string)
    requires |w| > 0 && AllWhitespace(w)
    requires rest == [] || !IsWhitespace(rest[0])
    ensures RunLength(w + rest) == |w|
    decreases |w|
  {
    var s := w + rest;
    if |w| > 1 {
      assert s[1..] == w[1..] + rest;
      RunLengthOfRun(w[1..], rest);
    }
  }

  /** A run that ends before the end of `s` stops at the same place when more
      text is appended. */
  lemma {:induction false} RunLengthAppend(a: string, b: string)
    requires |a| > 0 && IsWhitespace(a[0])
    requires RunLength(a) < |a|
    ensures RunLength(a + b) == RunLength(a)
    decreases |a|
  {
    var s := a + b;
    if |a| > 1 && IsWhitespace(a[1]) {
      assert s[1..] == a[1..] + b;
      RunLengthAppend(a[1..], b);
    }
  }

  /** The slug of a concatenation is the concatenation of the slugs whenever the
      cut does not split a whitespace run. */
  lemma {:induction false} SlugConcat(a: string, b: string)
    requires a == [] || b == [] || !IsWhitespace(a[|a| - 1]) || !IsWhitespace(b[0])
    ensures Slug(a + b) == Slug(a) + Slug(b)
    decreases |a|
  {
    var s := a + b;
    if a == [] {
      assert s == b;
    } else if b == [] {
      assert s == a;
    } else if IsWhitespace(a[0]) {
      var k := RunLength(a);
      if k < |a| {
        SlugConcat(a[k..], b);
        SlugConcatRunStep(a, b);
      } else {
        SlugConcatAtRunEnd(a, b);
      }
    } else {
      SlugConcat(a[1..], b);
      SlugConcatCharStep(a, b);
    }
  }

  lemma SlugConcatRunStep(a: string, b: string)
    requires |a| > 0 && IsWhitespace(a[0]) && RunLength(a) < |a|
    requires Slug(a[RunLength(a)..] + b) == Slug(a[RunLength(a)..]) + Slug(b)
    ensures Slug(a + b) == Slug(a) + Slug(b)
  {
    var k := RunLength(a);
    SlugAppendAfterRun(a, b);
    Assoc("-", Slug(a[k..]), Slug(b));
  }

  /** A leading run of `a` that ends inside `a` is also the leading run of `a + b`. */
  lemma SlugAppendAfterRun(a: string, b: string)
    requires |a| > 0 && IsWhitespace(a[0]) && RunLength(a) < |a|
    ensures Slug(a + b) == "-" + Slug(a[RunLength(a)..] + b)
  {
    var k := RunLength(a);
    RunLengthAppend(a, b);
    assert (a + b)[k..] == a[k..] + b;
  }

  lemma SlugConcatCharStep(a: string, b: string)
    requires |a| > 0 && !IsWhitespace(a[0])
    requires Slug(a[1..] + b) == Slug(a[1..]) + Slug(b)
    ensures Slug(a + b) == Slug(a) + Slug(b)
  {
    SlugAppendAfterChar(a, b);
    Assoc([ToLower(a[0])], Slug(a[1..]), Slug(b));
  }

  /** A leading character of `a` is also the leading character of `a + b`. */
  lemma SlugAppendAfterChar(a: string, b: string)
    requires |a| > 0 && !IsWhitespace(a[0])
    ensures Slug(a + b) == [ToLower(a[0])] + Slug(a[1..] + b)
  {
    assert (a + b)[0] == a[0];
    assert (a + b)[1..] == a[1..] + b;
  }

  lemma SlugConcatAtRunEnd(a: string, b: string)
    requires |a| > 0 && IsWhitespace(a[0]) && RunLength(a) == |a|
    requires b != [] && !IsWhitespace(b[0])
    ensures Slug(a + b) == Slug(a) + Slug(b)
  {
    assert a[..|a|] == a;
    SlugOfRun(a, b);
    assert a[|a|..] == [];
    assert Slug(a) == "-";
  }

  /** Without whitespace the slug is the lower-cased name. */
  lemma {:induction false} SlugWithoutWhitespace(s: string)
    requires NoWhitespace(s)
    ensures Slug(s) == LowerAll(s)
    decreases |s|
  {
    if s != [] {
      SlugWithoutWhitespace(s[1..]);
    }
  }

  /** Slugging a slug changes nothing. */
  lemma SlugIdempotent(s: string)
    ensures Slug(Slug(s)) == Slug(s)
  {
    var r := Slug(s);
    SlugWithoutWhitespace(r);
  }
}
