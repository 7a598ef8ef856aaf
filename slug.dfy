/**
 * The identifier normaliser of the heading processor (`generateId`): a chain of
 * six string rewrites. Each rewrite is a function whose contract says what it
 * leaves in the string; `GenerateId` composes them and promises a URL-safe slug.
 */
module Slug {

  /** A character matched by `\s` in a JavaScript regular expression (also what `trim` strips). */
  predicate IsSpace(c: char)
  {
    c == ' ' || c == '\t' || c == '\n' || c == '\r' || c == '\U{000B}' || c == '\U{000C}'
    || c == '\U{00A0}' || c == '\U{1680}' || ('\U{2000}' <= c <= '\U{200A}')
    || c == '\U{2028}' || c == '\U{2029}' || c == '\U{202F}' || c == '\U{205F}'
    || c == '\U{3000}' || c == '\U{FEFF}'
  }

  /** A character matched by `\w` (no `u` flag): ASCII letters, digits and underscore. */
  predicate IsWordChar(c: char)
  {
    'a' <= c <= 'z' || 'A' <= c <= 'Z' || '0' <= c <= '9' || c == '_'
  }

  predicate IsUpper(c: char) { 'A' <= c <= 'Z' }

  predicate IsHyphen(c: char) { c == '-' }

  /** A character allowed in a generated identifier. */
  predicate IsSlugChar(c: char)
  {
    'a' <= c <= 'z' || '0' <= c <= '9' || c == '_' || c == '-'
  }

  /** No two neighbouring characters both satisfy `p`. */
  ghost predicate NoAdjacent(s: string, p: char -> bool)
  {
    forall i :: 0 <= i < |s| - 1 ==> !(p(s[i]) && p(s[i + 1]))
  }

  ghost predicate AllSlugChars(s: string)
  {
    forall i :: 0 <= i < |s| ==> IsSlugChar(s[i])
  }

  /**
   * What `generateId` promises: only lower-case word characters and `-`, no `-`
   * at either end, and no `--` anywhere.
   */
  ghost predicate IsSlug(s: string)
  {
    && AllSlugChars(s)
    && (s != [] ==> s[0] != '-' && s[|s| - 1] != '-')
    && NoAdjacent(s, IsHyphen)
  }

  function LowerChar(c: char): (d: char)
    ensures !IsUpper(d)
    ensures IsWordChar(c) <==> IsWordChar(d)
    ensures IsSpace(c) <==> IsSpace(d)
    ensures !IsUpper(c) ==> d == c
    ensures IsUpper(c) ==> d as int == c as int + 32
  {
    if IsUpper(c) then (c as int + 32) as char else c
  }

  /** `toLowerCase`, restricted to the ASCII letters (see README, "Left out"). */
  function Lower(s: string): (r: string)
    ensures |r| == |s|
    ensures forall i :: 0 <= i < |s| ==> r[i] == LowerChar(s[i])
  {
    if s == [] then [] else [LowerChar(s[0])] + Lower(s[1..])
  }

  /** The number of leading characters satisfying `p`. */
  function RunLength(s: string, p: char -> bool): (n: nat)
    ensures n <= |s|
    ensures forall i :: 0 <= i < n ==> p(s[i])
    ensures n < |s| ==> !p(s[n])
  {
    if s != [] && p(s[0]) then 1 + RunLength(s[1..], p) else 0
  }

  /** The number of trailing characters satisfying `p`. */
  function RunLengthEnd(s: string, p: char -> bool): (n: nat)
    ensures n <= |s|
    ensures forall i :: |s| - n <= i < |s| ==> p(s[i])
    ensures n < |s| ==> !p(s[|s| - n - 1])
  {
    if s != [] && p(s[|s| - 1]) then 1 + RunLengthEnd(s[..|s| - 1], p) else 0
  }

  /** Every character of `s` is whitespace. */
  ghost predicate AllSpace(s: string)
  {
    forall i :: 0 <= i < |s| ==> IsSpace(s[i])
  }

  /** `r` sits in `s` at `lo`, with only whitespace before and after it. */
  ghost predicate SpaceBounded(s: string, lo: nat, r: string)
  {
    lo <= |s| - |r| && s[lo..lo + |r|] == r && AllSpace(s[..lo]) && AllSpace(s[lo + |r|..])
  }

  /**
   * `trim`: whitespace removed from both ends, nothing else touched. The result
   * is the infix of `s` left after dropping a whitespace prefix and a
   * whitespace suffix, and it neither starts nor ends with whitespace.
   */
  function Trim(s: string): (r: string)
    ensures forall i :: 0 <= i < |r| ==> r[i] in s
    ensures r != [] ==> !IsSpace(r[0]) && !IsSpace(r[|r| - 1])
    ensures s == [] || (!IsSpace(s[0]) && !IsSpace(s[|s| - 1])) ==> r == s
    ensures exists lo: nat :: SpaceBounded(s, lo, r)
  {
    var lo := RunLength(s, IsSpace);
    if lo == |s| then
      assert s[0..0] == [] && s[..0] == [] && s[0..] == s;
      assert SpaceBounded(s, 0, []);
      []
    else
      var hi := |s| - RunLengthEnd(s, IsSpace);
      TrimmedPart(s, lo, hi);
      InfixChars(s, lo, hi);
      assert |s[lo..hi]| == hi - lo;
      assert SpaceBounded(s, lo, s[lo..hi]);
      s[lo..hi]
  }

  /** What `Trim` keeps when `s` has a character other than whitespace. */
  lemma TrimmedPart(s: string, lo: nat, hi: int)
    requires lo == RunLength(s, IsSpace) < |s| && hi == |s| - RunLengthEnd(s, IsSpace)
    ensures lo < hi <= |s|
    ensures !IsSpace(s[lo]) && !IsSpace(s[hi - 1])
    ensures AllSpace(s[..lo]) && AllSpace(s[hi..])
  {
    assert lo < hi by {
      assert !IsSpace(s[lo]);
    }
    SpacePrefix(s, lo);
    SpaceSuffix(s, hi);
  }

  lemma SpacePrefix(s: string, n: nat)
    requires n <= |s| && forall i :: 0 <= i < n ==> IsSpace(s[i])
    ensures AllSpace(s[..n])
  {
    forall i | 0 <= i < n ensures IsSpace(s[..n][i]) {
      assert s[..n][i] == s[i];
    }
  }

  lemma SpaceSuffix(s: string, n: nat)
    requires n <= |s| && forall i :: n <= i < |s| ==> IsSpace(s[i])
    ensures AllSpace(s[n..])
  {
    forall i | 0 <= i < |s| - n ensures IsSpace(s[n..][i]) {
      assert s[n..][i] == s[n + i];
    }
  }

  /**
   * `trim` keeps exactly the part of `s` between a whitespace prefix `s[..lo]`
   * and a whitespace suffix `s[hi..]`, when that part neither starts nor ends
   * with whitespace.
   */
  lemma TrimExact(s: string, lo: nat, hi: nat)
    requires lo <= hi <= |s|
    requires forall i :: 0 <= i < lo ==> IsSpace(s[i])
    requires forall i :: hi <= i < |s| ==> IsSpace(s[i])
    requires lo < hi ==> !IsSpace(s[lo]) && !IsSpace(s[hi - 1])
    ensures Trim(s) == s[lo..hi]
  {
    var r := Trim(s);
    var k: nat :| SpaceBounded(s, k, r);
    SpaceBoundedInfix(s, lo, hi, k, r);
  }

  /** Two whitespace-bounded infixes of `s` that neither start nor end with whitespace are the same. */
  lemma SpaceBoundedInfix(s: string, lo: nat, hi: nat, k: nat, r: string)
    requires lo <= hi <= |s|
    requires forall i :: 0 <= i < lo ==> IsSpace(s[i])
    requires forall i :: hi <= i < |s| ==> IsSpace(s[i])
    requires lo < hi ==> !IsSpace(s[lo]) && !IsSpace(s[hi - 1])
    requires SpaceBounded(s, k, r)
    requires r != [] ==> !IsSpace(r[0]) && !IsSpace(r[|r| - 1])
    ensures r == s[lo..hi]
  {
    assert forall i :: 0 <= i < k ==> IsSpace(s[i]) by {
      forall i | 0 <= i < k ensures IsSpace(s[i]) {
        assert s[..k][i] == s[i];
      }
    }
    assert forall i :: k + |r| <= i < |s| ==> IsSpace(s[i]) by {
      forall i | k + |r| <= i < |s| ensures IsSpace(s[i]) {
        assert s[k + |r|..][i - k - |r|] == s[i];
      }
    }
    assert forall i :: 0 <= i < |r| ==> r[i] == s[k + i];
    if lo < hi {
      assert k <= lo && hi <= k + |r|;
      assert k == lo && k + |r| == hi;
    }
  }

  /** `replace(/[^\w\s-]/g, '')`: keeps word characters, whitespace and `-`, in order. */
  function KeepSlugSource(s: string): (r: string)
    ensures |r| <= |s|
    ensures forall i :: 0 <= i < |r| ==> r[i] in s
    ensures forall i :: 0 <= i < |r| ==> IsWordChar(r[i]) || IsSpace(r[i]) || r[i] == '-'
    ensures (forall i :: 0 <= i < |s| ==> IsWordChar(s[i]) || IsSpace(s[i]) || s[i] == '-') ==> r == s
    ensures |s| == 1 && !(IsWordChar(s[0]) || IsSpace(s[0]) || s[0] == '-') ==> r == []
  {
    if s == [] then []
    else if IsWordChar(s[0]) || IsSpace(s[0]) || s[0] == '-' then [s[0]] + KeepSlugSource(s[1..])
    else KeepSlugSource(s[1..])
  }

  /**
   * The filter works character by character: filtering a concatenation is
   * filtering each part. With the single-character cases of the contract, this
   * makes the result exactly the allowed characters of `s`, in order.
   */
  lemma {:induction false} KeepSlugSourceAppend(a: string, b: string)
    ensures KeepSlugSource(a + b) == KeepSlugSource(a) + KeepSlugSource(b)
  {
    if a == [] {
      assert a + b == b;
    } else {
      assert (a + b)[1..] == a[1..] + b;
      KeepSlugSourceAppend(a[1..], b);
    }
  }

  /**
   * `replace(/p+/g, [rep])`: every maximal run of characters satisfying `p`
   * becomes the single character `rep`; other characters are kept in order.
   */
  function CollapseRuns(s: string, p: char -> bool, rep: char): (r: string)
    ensures s != [] && !p(s[0]) ==> r != [] && r[0] == s[0]
    ensures |s| == 1 && !p(s[0]) ==> r == s
    ensures s != [] && p(s[0]) ==> r != [] && r[0] == rep
    ensures s != [] && (forall i :: 0 <= i < |s| ==> p(s[i])) ==> r == [rep]
    decreases |s|
  {
    if s == [] then []
    else if p(s[0]) then [rep] + CollapseRuns(s[RunLength(s, p)..], p, rep)
    else [s[0]] + CollapseRuns(s[1..], p, rep)
  }

  /**
   * What collapsing leaves: `rep` or a character of `s` outside the class,
   * and, when `rep` is itself in the class, no two neighbours in the class.
   */
  lemma {:induction false} CollapseRunsShape(s: string, p: char -> bool, rep: char)
    ensures forall i :: 0 <= i < |CollapseRuns(s, p, rep)| ==>
              CollapseRuns(s, p, rep)[i] == rep || (CollapseRuns(s, p, rep)[i] in s && !p(CollapseRuns(s, p, rep)[i]))
    ensures p(rep) ==> NoAdjacent(CollapseRuns(s, p, rep), p)
    decreases |s|
  {
    if s != [] {
      var k := if p(s[0]) then RunLength(s, p) else 1;
      var t := CollapseRuns(s[k..], p, rep);
      CollapseRunsShape(s[k..], p, rep);
      assert forall x :: x in s[k..] ==> x in s;
      var r := CollapseRuns(s, p, rep);
      assert r == [r[0]] + t;
      assert p(r[0]) ==> t == [] || !p(t[0]) by {
        if p(r[0]) && k < |s| {
          assert s[k..][0] == s[k];
        }
      }
      forall i | 1 <= i < |r| ensures r[i] == rep || (r[i] in s && !p(r[i])) {
        assert r[i] == t[i - 1];
        assert t[i - 1] == rep || (t[i - 1] in s[k..] && !p(t[i - 1]));
      }
      if p(rep) {
        forall i | 0 <= i < |r| - 1 ensures !(p(r[i]) && p(r[i + 1])) {
          if i > 0 {
            assert r[i] == t[i - 1] && r[i + 1] == t[i];
          }
        }
      }
    }
  }

  /** A class character followed by another is absorbed into the run that follows. */
  lemma CollapseDropStep(s: string, p: char -> bool, rep: char)
    requires |s| >= 2 && p(s[0]) && p(s[1])
    ensures CollapseRuns(s, p, rep) == CollapseRuns(s[1..], p, rep)
  {
    assert s[RunLength(s, p)..] == s[1..][RunLength(s[1..], p)..];
  }

  /** A class character that ends its run becomes one `rep`. */
  lemma CollapseLastStep(s: string, p: char -> bool, rep: char)
    requires s != [] && p(s[0]) && (|s| == 1 || !p(s[1]))
    ensures CollapseRuns(s, p, rep) == [rep] + CollapseRuns(s[1..], p, rep)
  {
    assert |s| > 1 ==> s[1..][0] == s[1];
    assert RunLength(s[1..], p) == 0;
  }

  /**
   * Collapsing works run by run: when the cut between `a` and `b` does not fall
   * inside a run of `p`, collapsing `a + b` is collapsing each part. With the
   * contract's cases (a run becomes one `rep`, another character stays), this
   * determines the result: each maximal run becomes one `rep` and every other
   * character is kept, in order.
   */
  lemma {:induction false} CollapseRunsAppend(a: string, b: string, p: char -> bool, rep: char)
    requires a == [] || b == [] || !p(a[|a| - 1]) || !p(b[0])
    ensures CollapseRuns(a + b, p, rep) == CollapseRuns(a, p, rep) + CollapseRuns(b, p, rep)
    decreases |a|
  {
    var s := a + b;
    if a == [] {
      assert s == b;
    } else {
      assert s[1..] == a[1..] + b;
      assert s[0] == a[0];
      assert |a| > 1 ==> s[1] == a[1];
      assert |a| == 1 && b != [] ==> s[1] == b[0];
      CollapseRunsAppend(a[1..], b, p, rep);
      if !p(a[0]) {
        ConsAppend(a[0], CollapseRuns(a[1..], p, rep), CollapseRuns(b, p, rep));
      } else if |a| > 1 && p(a[1]) {
        CollapseDropStep(a, p, rep);
        CollapseDropStep(s, p, rep);
      } else {
        CollapseLastStep(a, p, rep);
        CollapseLastStep(s, p, rep);
        ConsAppend(rep, CollapseRuns(a[1..], p, rep), CollapseRuns(b, p, rep));
      }
    }
  }

  lemma ConsAppend(c: char, x: string, y: string)
    ensures [c] + (x + y) == ([c] + x) + y
  {
  }

  /** `replace(/^-|-$/g, '')`: one `-` removed from each end. */
  function TrimHyphens(s: string): (r: string)
    ensures s == [] ==> r == []
    ensures |s| == 1 && s[0] == '-' ==> r == []
    ensures |s| >= 2 && s[0] == '-' && s[|s| - 1] == '-' ==> r == s[1..|s| - 1]
    ensures s != [] && s[0] == '-' && s[|s| - 1] != '-' ==> r == s[1..]
    ensures s != [] && s[0] != '-' && s[|s| - 1] == '-' ==> r == s[..|s| - 1]
    ensures forall i :: 0 <= i < |r| ==> r[i] in s
    ensures NoAdjacent(s, IsHyphen) ==> NoAdjacent(r, IsHyphen) && (r != [] ==> r[0] != '-' && r[|r| - 1] != '-')
    ensures s == [] || (s[0] != '-' && s[|s| - 1] != '-') ==> r == s
  {
    var lo := if s != [] && s[0] == '-' then 1 else 0;
    var hi := if |s| > lo && s[|s| - 1] == '-' then |s| - 1 else |s|;
    var r := s[lo..hi];
    assert forall i :: 0 <= i < |r| ==> r[i] == s[lo + i];
    assert r != [] ==> r[0] == s[lo] && r[|r| - 1] == s[hi - 1];
    InfixChars(s, lo, hi);
    assert NoAdjacent(s, IsHyphen) ==> NoAdjacent(s[lo..hi], IsHyphen) by {
      if NoAdjacent(s, IsHyphen) {
        InfixKeepsNoAdjacent(s, lo, hi, IsHyphen);
      }
    }
    r
  }

  lemma InfixKeepsNoAdjacent(s: string, lo: nat, hi: nat, p: char -> bool)
    requires lo <= hi <= |s| && NoAdjacent(s, p)
    ensures NoAdjacent(s[lo..hi], p)
  {
  }

  lemma InfixChars(s: string, lo: nat, hi: nat)
    requires lo <= hi <= |s|
    ensures forall i :: 0 <= i < hi - lo ==> s[lo..hi][i] in s
  {
    forall i | 0 <= i < hi - lo ensures s[lo..hi][i] in s {
      assert s[lo..hi][i] == s[lo + i];
    }
  }

  /** `generateId`: the six `String` rewrites, applied in the source's order. */
  function GenerateId(text: string): string
  {
    TrimHyphens(CollapseRuns(CollapseRuns(KeepSlugSource(Trim(Lower(text))), IsSpace, '-'), IsHyphen, '-'))
  }

  /** Whatever the text, `generateId` yields a slug. */
  lemma GenerateIdIsSlug(text: string)
    ensures IsSlug(GenerateId(text))
  {
    RewritesYieldSlug(text);
  }

  /** The rewrites leave only slug characters, no edge `-` and no `--`. */
  lemma RewritesYieldSlug(text: string)
    ensures IsSlug(TrimHyphens(CollapseRuns(CollapseRuns(KeepSlugSource(Trim(Lower(text))), IsSpace, '-'), IsHyphen, '-')))
  {
    var trimmed := Trim(Lower(text));
    var kept := KeepSlugSource(trimmed);
    var hyphenated := CollapseRuns(kept, IsSpace, '-');
    var collapsed := CollapseRuns(hyphenated, IsHyphen, '-');
    KeptAreSlugOrSpace(text, trimmed, kept);
    CollapsedAreSlug(kept, IsSpace, hyphenated);
    CollapsedAreSlug(hyphenated, IsHyphen, collapsed);
    CollapseRunsShape(hyphenated, IsHyphen, '-');
    var id := TrimHyphens(collapsed);
    assert AllSlugChars(id) by {
      forall i | 0 <= i < |id| ensures IsSlugChar(id[i]) {
        var j :| 0 <= j < |collapsed| && collapsed[j] == id[i];
      }
    }
  }

  /** After lower-casing, trimming and filtering, every character is a slug character or a space. */
  lemma KeptAreSlugOrSpace(text: string, trimmed: string, kept: string)
    requires trimmed == Trim(Lower(text)) && kept == KeepSlugSource(trimmed)
    ensures forall i :: 0 <= i < |kept| ==> IsSlugChar(kept[i]) || IsSpace(kept[i])
  {
    var lowered := Lower(text);
    forall i | 0 <= i < |kept| ensures IsSlugChar(kept[i]) || IsSpace(kept[i]) {
      assert kept[i] in trimmed;
      var j :| 0 <= j < |trimmed| && trimmed[j] == kept[i];
      assert trimmed[j] in lowered;
      var k :| 0 <= k < |lowered| && lowered[k] == trimmed[j];
      assert !IsUpper(kept[i]);
    }
  }

  /** Collapsing the runs of `p` into `-` leaves only slug characters when `p` covers every other character. */
  lemma CollapsedAreSlug(s: string, p: char -> bool, r: string)
    requires forall i :: 0 <= i < |s| ==> IsSlugChar(s[i]) || p(s[i])
    requires r == CollapseRuns(s, p, '-')
    ensures AllSlugChars(r)
  {
    CollapseRunsShape(s, p, '-');
    forall i | 0 <= i < |r| ensures IsSlugChar(r[i]) {
      if r[i] != '-' {
        var j :| 0 <= j < |s| && s[j] == r[i];
      }
    }
  }

  /** Collapsing is the identity on a string whose `p`-characters are isolated copies of `rep`. */
  lemma {:induction false} CollapseRunsNoop(s: string, p: char -> bool, rep: char)
    requires forall i :: 0 <= i < |s| ==> p(s[i]) ==> s[i] == rep
    requires NoAdjacent(s, p)
    ensures CollapseRuns(s, p, rep) == s
    decreases |s|
  {
    if s != [] {
      assert NoAdjacent(s[1..], p);
      CollapseRunsNoop(s[1..], p, rep);
      if p(s[0]) {
        assert RunLength(s, p) == 1;
      }
      assert s == [s[0]] + s[1..];
    }
  }

  lemma SlugCharNotSpace(c: char)
    requires IsSlugChar(c)
    ensures !IsSpace(c)
  {
  }

  /** A slug is a fixed point of the normaliser. */
  lemma SlugIsFixedPoint(t: string)
    requires IsSlug(t)
    ensures GenerateId(t) == t
  {
    SlugIsLower(t);
    SlugIsTrimmed(t);
    SlugIsKept(t);
    SlugHasNoSpaceRun(t);
    CollapseRunsNoop(t, IsHyphen, '-');
  }

  lemma SlugIsLower(t: string)
    requires IsSlug(t)
    ensures Lower(t) == t
  {
    forall i | 0 <= i < |t| ensures Lower(t)[i] == t[i] {
      assert IsSlugChar(t[i]);
    }
  }

  lemma SlugIsTrimmed(t: string)
    requires IsSlug(t)
    ensures Trim(t) == t
  {
    if t != [] {
      SlugCharNotSpace(t[0]);
      SlugCharNotSpace(t[|t| - 1]);
    }
  }

  lemma SlugIsKept(t: string)
    requires IsSlug(t)
    ensures KeepSlugSource(t) == t
  {
    forall i | 0 <= i < |t| ensures IsWordChar(t[i]) || t[i] == '-' {
      assert IsSlugChar(t[i]);
    }
  }

  lemma SlugHasNoSpaceRun(t: string)
    requires IsSlug(t)
    ensures CollapseRuns(t, IsSpace, '-') == t
  {
    forall i | 0 <= i < |t| ensures !IsSpace(t[i]) {
      SlugCharNotSpace(t[i]);
    }
    CollapseRunsNoop(t, IsSpace, '-');
  }

  /** `generateId` is idempotent: normalising an identifier again changes nothing. */
  lemma GenerateIdIdempotent(text: string)
    ensures GenerateId(GenerateId(text)) == GenerateId(text)
  {
    GenerateIdIsSlug(text);
    SlugIsFixedPoint(GenerateId(text));
  }

  /**
   * Text made only of characters the filter drops (no word character, no
   * whitespace, no `-`) normalises to the empty identifier.
   */
  lemma NoSlugSourceYieldsEmpty(text: string)
    requires forall i :: 0 <= i < |text| ==> !(IsWordChar(text[i]) || IsSpace(text[i]) || text[i] == '-')
    ensures GenerateId(text) == ""
  {
    assert Lower(text) == text by {
      forall i | 0 <= i < |text| ensures Lower(text)[i] == text[i] {
        assert !IsUpper(text[i]);
      }
    }
    assert Trim(text) == text;
    DropsAll(text);
  }

  /** The filter drops every character of such a text. */
  lemma {:induction false} DropsAll(s: string)
    requires forall i :: 0 <= i < |s| ==> !(IsWordChar(s[i]) || IsSpace(s[i]) || s[i] == '-')
    ensures KeepSlugSource(s) == []
  {
    if s != [] {
      DropsAll(s[1..]);
    }
  }

  /** No ASCII letter, digit or `_`: the characters `\w` matches. */
  ghost predicate NoWordChar(s: string)
  {
    forall i :: 0 <= i < |s| ==> !IsWordChar(s[i])
  }

  /**
   * `generateId` gives the empty id exactly when the text has no ASCII letter,
   * digit or `_`: every other character is dropped, or ends as a `-` that the
   * last rewrite strips.
   */
  lemma GenerateIdEmptyIff(text: string)
    ensures GenerateId(text) == "" <==> NoWordChar(text)
  {
    if NoWordChar(text) {
      NoWordCharYieldsEmpty(text);
    } else {
      var i :| 0 <= i < |text| && IsWordChar(text[i]);
      WordCharSurvives(text, i);
    }
  }

  /** Appending characters that are not word characters (the icon `#`) keeps an empty id empty. */
  lemma EmptyIdAppend(text: string, suffix: string)
    requires GenerateId(text) == "" && NoWordChar(suffix)
    ensures GenerateId(text + suffix) == ""
  {
    GenerateIdEmptyIff(text);
    assert NoWordChar(text + suffix) by {
      forall i | 0 <= i < |text + suffix| ensures !IsWordChar((text + suffix)[i]) {
        if i < |text| {
          assert (text + suffix)[i] == text[i];
        } else {
          assert (text + suffix)[i] == suffix[i - |text|];
        }
      }
    }
    GenerateIdEmptyIff(text + suffix);
  }

  /** Without word characters, the stages leave only whitespace and `-`, then one `-`, then nothing. */
  lemma NoWordCharYieldsEmpty(text: string)
    requires NoWordChar(text)
    ensures GenerateId(text) == ""
  {
    var l := Lower(text);
    assert NoWordChar(l);
    var t := Trim(l);
    assert NoWordChar(t) by {
      forall i | 0 <= i < |t| ensures !IsWordChar(t[i]) {
        assert t[i] in l;
      }
    }
    var k := KeepSlugSource(t);
    assert forall i :: 0 <= i < |k| ==> IsSpace(k[i]) || k[i] == '-' by {
      forall i | 0 <= i < |k| ensures IsSpace(k[i]) || k[i] == '-' {
        assert k[i] in t;
      }
    }
    var c1 := CollapseRuns(k, IsSpace, '-');
    CollapseRunsShape(k, IsSpace, '-');
    assert forall i :: 0 <= i < |c1| ==> IsHyphen(c1[i]);
    var c2 := CollapseRuns(c1, IsHyphen, '-');
    assert c2 == [] || c2 == ['-'];
  }

  /** A word character of the text reaches the identifier. */
  lemma WordCharSurvives(text: string, i: nat)
    requires i < |text| && IsWordChar(text[i])
    ensures GenerateId(text) != ""
  {
    var l := Lower(text);
    var c := l[i];
    var t := Trim(l);
    TrimKeeps(l, i);
    var k := KeepSlugSource(t);
    KeepSlugSourceKeeps(t, c);
    var c1 := CollapseRuns(k, IsSpace, '-');
    CollapseRunsKeeps(k, IsSpace, '-', c);
    var c2 := CollapseRuns(c1, IsHyphen, '-');
    CollapseRunsKeeps(c1, IsHyphen, '-', c);
    var j :| 0 <= j < |c2| && c2[j] == c;
    TrimHyphensKeeps(c2, j);
  }

  /** `trim` keeps every character that is not whitespace. */
  lemma TrimKeeps(s: string, i: nat)
    requires i < |s| && !IsSpace(s[i])
    ensures s[i] in Trim(s)
  {
    var r := Trim(s);
    var lo: nat :| SpaceBounded(s, lo, r);
    forall k | 0 <= k < lo ensures IsSpace(s[k]) {
      assert s[..lo][k] == s[k];
    }
    forall k | lo + |r| <= k < |s| ensures IsSpace(s[k]) {
      assert s[lo + |r|..][k - lo - |r|] == s[k];
    }
    assert r[i - lo] == s[i];
  }

  /** The filter keeps every word character. */
  lemma {:induction false} KeepSlugSourceKeeps(s: string, c: char)
    requires c in s && IsWordChar(c)
    ensures c in KeepSlugSource(s)
  {
    if s[0] != c {
      KeepSlugSourceKeeps(s[1..], c);
    }
  }

  /** Collapsing runs keeps every character outside the run class. */
  lemma {:induction false} CollapseRunsKeeps(s: string, p: char -> bool, rep: char, c: char)
    requires c in s && !p(c)
    ensures c in CollapseRuns(s, p, rep)
    decreases |s|
  {
    if s[0] != c {
      var k := if p(s[0]) then RunLength(s, p) else 1;
      var j :| 0 <= j < |s| && s[j] == c;
      assert k <= j;
      assert s[k..][j - k] == c;
      CollapseRunsKeeps(s[k..], p, rep, c);
    }
  }

  /** Stripping edge hyphens keeps every character that is not `-`. */
  lemma TrimHyphensKeeps(s: string, j: nat)
    requires j < |s| && s[j] != '-'
    ensures s[j] in TrimHyphens(s)
  {
    var lo := if s[0] == '-' then 1 else 0;
    var hi := if s[|s| - 1] == '-' then |s| - 1 else |s|;
    assert lo <= j < hi;
    assert TrimHyphens(s) == s[lo..hi];
    assert s[lo..hi][j - lo] == s[j];
  }
}
