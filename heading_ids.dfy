/**
 * Identifier allocation of the heading processor (`ensureHeadingId`), stated on
 * values: the document is the set of ids `getElementById` can find, and a heading
 * is its current `id` attribute together with its `textContent`.
 */
module HeadingIds {
  import Slug

  /** `document.getElementById(id)` finds an element; it never does for the empty string. */
  predicate Present(ids: set<string>, id: string)
  {
    id != "" && id in ids
  }

  function DigitChar(d: nat): (c: char)
    requires d < 10
    ensures '0' <= c <= '9'
  {
    ('0' as int + d) as char
  }

  /** The template literal `${n}` for a counter value: decimal digits, no leading zero. */
  function NatToString(n: nat): (s: string)
    ensures |s| >= 1 && (n < 10 <==> |s| == 1)
    ensures forall i :: 0 <= i < |s| ==> '0' <= s[i] <= '9'
  {
    if n < 10 then [DigitChar(n)] else NatToString(n / 10) + [DigitChar(n % 10)]
  }

  /** The number a string of decimal digits denotes, most significant digit first. */
  ghost function DecimalValue(s: string): int
  {
    if s == [] then 0 else DecimalValue(s[..|s| - 1]) * 10 + (s[|s| - 1] as int - '0' as int)
  }

  /** The digits read back as `n`, and only `0` itself starts with the digit `0`. */
  lemma {:induction false} NatToStringValue(n: nat)
    ensures DecimalValue(NatToString(n)) == n
    ensures NatToString(n)[0] == '0' <==> n == 0
  {
    if n >= 10 {
      var s := NatToString(n);
      NatToStringValue(n / 10);
      assert s[..|s| - 1] == NatToString(n / 10);
      assert s[0] == NatToString(n / 10)[0];
    }
  }

  lemma {:induction false} NatToStringInjective(m: nat, n: nat)
    requires NatToString(m) == NatToString(n)
    ensures m == n
  {
    if m >= 10 && n >= 10 {
      var sm, sn := NatToString(m), NatToString(n);
      assert sm[|sm| - 1] == sn[|sn| - 1];
      assert m % 10 == n % 10;
      assert sm[..|sm| - 1] == NatToString(m / 10);
      assert sn[..|sn| - 1] == NatToString(n / 10);
      NatToStringInjective(m / 10, n / 10);
    }
  }

  /** The k-th name `ensureHeadingId` tries: the base itself, then `${base}-${k}`. */
  function Candidate(base: string, k: nat): string
  {
    if k == 0 then base else base + "-" + NatToString(k)
  }

  lemma CandidateInjective(base: string, i: nat, j: nat)
    requires Candidate(base, i) == Candidate(base, j)
    ensures i == j
  {
    if i != 0 && j != 0 {
      var ci, cj := Candidate(base, i), Candidate(base, j);
      assert ci[|base| + 1..] == NatToString(i);
      assert cj[|base| + 1..] == NatToString(j);
      NatToStringInjective(i, j);
    }
  }

  ghost function CandidatesBelow(base: string, n: nat): set<string>
  {
    set k | 0 <= k < n :: Candidate(base, k)
  }

  lemma {:induction false} CandidatesBelowCard(base: string, n: nat)
    ensures |CandidatesBelow(base, n)| == n
  {
    if n > 0 {
      CandidatesBelowCard(base, n - 1);
      assert CandidatesBelow(base, n) == CandidatesBelow(base, n - 1) + {Candidate(base, n - 1)};
      if Candidate(base, n - 1) in CandidatesBelow(base, n - 1) {
        var k :| 0 <= k < n - 1 && Candidate(base, k) == Candidate(base, n - 1);
        CandidateInjective(base, k, n - 1);
      }
    }
  }

  lemma {:induction false} SubsetCard<T>(a: set<T>, b: set<T>)
    requires a <= b
    ensures |a| <= |b|
  {
    if a != {} {
      var x :| x in a;
      SubsetCard(a - {x}, b - {x});
    }
  }

  /** While the first n candidates are all taken, the document holds at least n ids. */
  lemma CandidatesTaken(ids: set<string>, base: string, n: nat)
    requires forall j :: 0 <= j < n ==> Present(ids, Candidate(base, j))
    ensures n <= |ids|
  {
    CandidatesBelowCard(base, n);
    SubsetCard(CandidatesBelow(base, n), ids);
  }

  /**
   * The index of the first candidate, from k on, that the document does not
   * hold: the number of turns `ensureHeadingId`'s loop takes.
   */
  function FirstFreeIndex(ids: set<string>, base: string, k: nat): (n: nat)
    requires forall j :: 0 <= j < k ==> Present(ids, Candidate(base, j))
    ensures k <= n
    ensures !Present(ids, Candidate(base, n))
    ensures forall j :: 0 <= j < n ==> Present(ids, Candidate(base, j))
    decreases |ids| - k
  {
    if Present(ids, Candidate(base, k)) then
      CandidatesTaken(ids, base, k + 1);
      FirstFreeIndex(ids, base, k + 1)
    else
      k
  }

  /** The id `ensureHeadingId` allocates for a heading without one. */
  function AllocateId(ids: set<string>, base: string): (id: string)
    ensures !Present(ids, id)
    ensures !Present(ids, base) ==> id == base
    ensures id == "" <==> base == ""
  {
    Candidate(base, FirstFreeIndex(ids, base, 0))
  }

  /** Allocating from a slug yields a slug. */
  lemma AllocateIdIsSlug(ids: set<string>, base: string)
    requires Slug.IsSlug(base)
    ensures Slug.IsSlug(AllocateId(ids, base))
  {
    var n := FirstFreeIndex(ids, base, 0);
    if n > 0 {
      CandidateIsSlug(base, n);
    }
  }

  /** A suffixed candidate of a non-empty slug is a slug. */
  lemma CandidateIsSlug(base: string, k: nat)
    requires Slug.IsSlug(base) && base != "" && k > 0
    ensures Slug.IsSlug(Candidate(base, k))
  {
    var c := Candidate(base, k);
    var digits := NatToString(k);
    assert c == base + "-" + digits;
    forall i | 0 <= i < |c| - 1
      ensures !(Slug.IsHyphen(c[i]) && Slug.IsHyphen(c[i + 1]))
    {
      if i < |base| - 1 {
        assert c[i] == base[i] && c[i + 1] == base[i + 1];
      } else if i == |base| - 1 {
        assert c[i] == base[|base| - 1];
      } else {
        assert c[i + 1] == digits[i + 1 - |base| - 1];
      }
    }
    forall i | 0 <= i < |c| ensures Slug.IsSlugChar(c[i]) {
      if i < |base| {
        assert c[i] == base[i];
      } else if i > |base| {
        assert c[i] == digits[i - |base| - 1];
      }
    }
    assert c[|c| - 1] == digits[|digits| - 1];
  }

  /** The string `ensureHeadingId` derives the base id from: `textContent || 'heading'`. */
  function BaseText(text: string): string
  {
    if text == "" then "heading" else text
  }

  /**
   * The base id of a heading whose text is `text`. The fallback text is
   * already a slug, so it is returned as it is (`BaseIdIsGenerateId`).
   */
  function BaseId(text: string): string
  {
    if text == "" then "heading" else Slug.GenerateId(text)
  }

  /** `generateId(textContent || 'heading')`, as the source writes it. */
  lemma BaseIdIsGenerateId(text: string)
    ensures BaseId(text) == Slug.GenerateId(BaseText(text))
  {
    if text == "" {
      HeadingIsSlug();
      Slug.SlugIsFixedPoint("heading");
    }
  }

  /**
   * Text whose base id is empty keeps an empty base id when characters other
   * than word characters are appended to it, as the icon `#` is.
   */
  lemma BaseIdEmptyAppend(text: string, suffix: string)
    requires BaseId(text) == "" && Slug.NoWordChar(suffix)
    ensures BaseId(text + suffix) == ""
  {
    Slug.EmptyIdAppend(text, suffix);
  }

  /** A base id is a slug. */
  lemma BaseIdIsSlug(text: string)
    ensures Slug.IsSlug(BaseId(text))
  {
    if text == "" {
      HeadingIsSlug();
    } else {
      Slug.GenerateIdIsSlug(text);
    }
  }

  lemma HeadingIsSlug()
    ensures Slug.IsSlug("heading")
  {
  }

  /**
   * `ensureHeadingId` on a heading whose `id` attribute is `current` and whose
   * base id is `base`: an existing id is kept, otherwise the first free candidate.
   */
  function ResolveId(current: string, base: string, ids: set<string>): (id: string)
    ensures current != "" ==> id == current
    ensures current == "" ==> !Present(ids, id)
    ensures current == "" && !Present(ids, base) ==> id == base
  {
    if current != "" then current else AllocateId(ids, base)
  }

  /** A heading whose id attribute is a slug or empty ends up with a slug id. */
  lemma ResolveIdIsSlug(current: string, text: string, ids: set<string>)
    requires current == "" || Slug.IsSlug(current)
    ensures Slug.IsSlug(ResolveId(current, BaseId(text), ids))
  {
    if current == "" {
      BaseIdIsSlug(text);
      AllocateIdIsSlug(ids, BaseId(text));
    }
  }

  /**
   * Once stored on the heading (and so findable in the document), the id is
   * what a second call returns, including the empty id of a punctuation-only text.
   */
  lemma ResolveIdStable(current: string, base: string, ids: set<string>)
    ensures var id := ResolveId(current, base, ids);
            ResolveId(id, base, ids + {id}) == id
  {
  }

  /**
   * A second pass over headings that now carry the ids of the first hands out
   * the same ids, whatever the document holds: a non-empty id is kept, and a
   * heading the first pass left with the empty id has an empty base id again.
   */
  lemma {:induction false} AssignIdsStable(ids: set<string>, first: seq<Claim>, second: seq<Claim>, other: set<string>)
    requires |second| == |first|
    requires forall i :: 0 <= i < |first| ==> second[i].id == AssignIds(ids, first)[i]
    requires forall i :: 0 <= i < |first| && AssignIds(ids, first)[i] == "" ==> second[i].base == ""
    ensures AssignIds(other, second) == AssignIds(ids, first)
    decreases |first|
  {
    if first != [] {
      var n := |first| - 1;
      var r := AssignIds(ids, first);
      AssignIdsPrefix(ids, first, n);
      assert forall i :: 0 <= i < n ==> second[..n][i] == second[i] && r[..n][i] == r[i];
      AssignIdsStable(ids, first[..n], second[..n], other);
      var prev := AssignIds(other, second[..n]);
      assert AssignIds(other, second) == prev + [ResolveId(second[n].id, second[n].base, other + Elements(prev))];
      assert r == r[..n] + [r[n]];
    }
  }

  /** The first candidate not in the document is the one allocated: `base`, then `base-1`, ... */
  lemma AllocateIdIsFirstFree(ids: set<string>, base: string, n: nat)
    requires !Present(ids, Candidate(base, n))
    requires forall j :: 0 <= j < n ==> Present(ids, Candidate(base, j))
    ensures AllocateId(ids, base) == Candidate(base, n)
  {
  }

  /** A heading as the allocator sees it: its current `id` attribute and its base id. */
  datatype Claim = Claim(id: string, base: string)

  function Elements(s: seq<string>): set<string>
  {
    set x | x in s
  }

  lemma ElementsOfOne(s: seq<string>)
    requires |s| == 1
    ensures Elements(s) == {s[0]}
  {
  }

  lemma ElementsOfTwo(s: seq<string>)
    requires |s| == 2
    ensures Elements(s) == {s[0], s[1]}
  {
  }

  /**
   * `ensureHeadingId` applied to the headings in document order, each id being
   * visible to `getElementById` for the headings after it.
   */
  function AssignIds(ids: set<string>, hs: seq<Claim>): (r: seq<string>)
    ensures |r| == |hs|
  {
    if hs == [] then []
    else
      var prev := AssignIds(ids, hs[..|hs| - 1]);
      var last := hs[|hs| - 1];
      prev + [ResolveId(last.id, last.base, ids + Elements(prev))]
  }

  /** The ids of the first k headings do not depend on the headings after them. */
  lemma {:induction false} AssignIdsPrefix(ids: set<string>, hs: seq<Claim>, k: nat)
    requires k <= |hs|
    ensures AssignIds(ids, hs[..k]) == AssignIds(ids, hs)[..k]
    decreases |hs|
  {
    if k < |hs| {
      assert hs[..|hs| - 1][..k] == hs[..k];
      AssignIdsPrefix(ids, hs[..|hs| - 1], k);
    } else {
      assert hs[..k] == hs;
    }
  }

  /** One more heading: its id is resolved against the document plus the ids already handed out. */
  lemma AssignIdsSnoc(ids: set<string>, hs: seq<Claim>, i: nat)
    requires i < |hs|
    ensures var prev := AssignIds(ids, hs[..i]);
            AssignIds(ids, hs[..i + 1]) == prev + [ResolveId(hs[i].id, hs[i].base, ids + Elements(prev))]
  {
    assert hs[..i + 1][..i] == hs[..i];
  }

  lemma ElementsSnoc(s: seq<string>, x: string)
    ensures Elements(s + [x]) == Elements(s) + {x}
  {
  }

  /** The i-th id is `ensureHeadingId` run against the document plus the ids before it. */
  lemma AssignIdsAt(ids: set<string>, hs: seq<Claim>, i: nat)
    requires i < |hs|
    ensures var r := AssignIds(ids, hs);
            r[i] == ResolveId(hs[i].id, hs[i].base, ids + Elements(r[..i]))
  {
    AssignIdsPrefix(ids, hs, i + 1);
    AssignIdsPrefix(ids, hs, i);
    assert hs[..i + 1][..i] == hs[..i];
    assert hs[..i + 1][i] == hs[i];
  }

  /**
   * A heading that already has an id keeps it; every id allocated for one that
   * has none is new to the document and differs from every id handed out
   * before it in the same pass.
   */
  lemma AssignIdsFresh(ids: set<string>, hs: seq<Claim>, i: nat)
    requires i < |hs|
    ensures var r := AssignIds(ids, hs);
            && (hs[i].id != "" ==> r[i] == hs[i].id)
            && (hs[i].id == "" && r[i] != "" ==> r[i] !in ids && forall j :: 0 <= j < i ==> r[j] != r[i])
  {
    var r := AssignIds(ids, hs);
    AssignIdsAt(ids, hs, i);
    forall j | 0 <= j < i ensures r[j] in Elements(r[..i]) {
      assert r[j] == r[..i][j];
    }
  }

  /**
   * Three headings without ids, the first and last with the same base id `b`
   * and the middle one with another base `c`, in a document with no ids: they
   * receive `b`, `c` and `b-1` (for "Intro", "Setup", "Intro": `intro`,
   * `setup`, `intro-1`; see `BaseIdIntro` and `BaseIdSetup`).
   */
  lemma RepeatedTitles(b: string, c: string, hs: seq<Claim>)
    requires |hs| == 3 && hs[0] == hs[2] == Claim("", b) && hs[1] == Claim("", c)
    requires b != "" && c != b && c != Candidate(b, 1)
    ensures AssignIds({}, hs) == [b, c, Candidate(b, 1)]
  {
    var r := AssignIds({}, hs);
    AssignIdsAt({}, hs, 0);
    AssignIdsAt({}, hs, 1);
    assert r[..1] == [b];
    ElementsOfOne([b]);
    AssignIdsAt({}, hs, 2);
    assert r[..2] == [b, c];
    ElementsOfTwo([b, c]);
    SecondCandidateFree(b, c);
  }

  lemma SecondCandidateFree(b: string, c: string)
    requires b != "" && c != b && c != Candidate(b, 1)
    ensures AllocateId({b, c}, b) == Candidate(b, 1)
  {
    assert Present({b, c}, Candidate(b, 0));
    assert Candidate(b, 1) != b by {
      if Candidate(b, 1) == b {
        CandidateInjective(b, 0, 1);
      }
    }
    AllocateIdIsFirstFree({b, c}, b, 1);
  }

  lemma BaseIdIntro()
    ensures BaseId("Intro") == "intro"
  {
    assert Slug.Lower("Intro") == "intro";
    Slug.SlugIsFixedPoint("intro");
  }

  lemma BaseIdSetup()
    ensures BaseId("Setup") == "setup"
  {
    assert Slug.Lower("Setup") == "setup";
    Slug.SlugIsFixedPoint("setup");
  }

  lemma CandidateIntro1()
    ensures Candidate("intro", 1) == "intro-1"
  {
    assert NatToString(1) == ['1'];
  }
}
