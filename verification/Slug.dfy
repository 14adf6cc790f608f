/** Workspace slugs: normalising a name, and finding a free variant of it. */
module Slug {
  import opened Text

  predicate Allowed(c: char) {
    'a' <= c <= 'z' || '0' <= c <= '9'
  }

  ghost predicate SlugChars(s: string) {
    forall i :: 0 <= i < |s| ==> Allowed(s[i]) || s[i] == '-'
  }

  ghost predicate NoDoubleHyphen(s: string) {
    forall i :: 0 < i < |s| ==> !(s[i - 1] == '-' && s[i] == '-')
  }

  /** Lower-case letters, digits and single inner hyphens. */
  ghost predicate IsSlug(s: string) {
    s != "" && SlugChars(s) && NoDoubleHyphen(s) && s[0] != '-' && s[|s| - 1] != '-'
  }

  ghost predicate FixesSlugChars(f: string -> string) {
    forall s :: SlugChars(s) ==> f(s) == s
  }

  /** All that matters of Unicode lower-casing: it leaves lower-case ASCII letters, digits and hyphens alone. */
  type LowerCase = f: string -> string | FixesSlugChars(f) ghost witness s => s

  function StripSpaces(s: string): string {
    if s != "" && IsSpace(s[0]) then StripSpaces(s[1..])
    else if s != "" && IsSpace(s[|s| - 1]) then StripSpaces(s[..|s| - 1])
    else s
  }

  function SkipOthers(s: string): (r: string)
    ensures |r| <= |s| && (r != "" ==> Allowed(r[0]))
  {
    if s == "" || Allowed(s[0]) then s else SkipOthers(s[1..])
  }

  /** Every run of other characters becomes one hyphen. */
  function Collapse(s: string): string
    decreases |s|
  {
    if s == "" then ""
    else if Allowed(s[0]) then [s[0]] + Collapse(s[1..])
    else ['-'] + Collapse(SkipOthers(s[1..]))
  }

  function StripHyphens(s: string): string {
    if s != "" && s[0] == '-' then StripHyphens(s[1..])
    else if s != "" && s[|s| - 1] == '-' then StripHyphens(s[..|s| - 1])
    else s
  }

  function Slugify(lower: LowerCase, value: string): string {
    var slug := StripHyphens(Collapse(StripSpaces(lower(value))));
    if slug == "" then "workspace" else slug
  }

  lemma {:induction false} CollapseIsClean(s: string)
    ensures SlugChars(Collapse(s)) && NoDoubleHyphen(Collapse(s))
    ensures s != "" && Allowed(s[0]) ==> Collapse(s)[0] == s[0]
    decreases |s|
  {
    if s != "" {
      var rest := if Allowed(s[0]) then s[1..] else SkipOthers(s[1..]);
      CollapseIsClean(rest);
      assert forall i :: 0 < i < |Collapse(s)| ==> Collapse(s)[i] == Collapse(rest)[i - 1];
    }
  }

  lemma {:induction false} StripKeepsClean(s: string)
    requires SlugChars(s) && NoDoubleHyphen(s)
    ensures SlugChars(StripHyphens(s)) && NoDoubleHyphen(StripHyphens(s))
    ensures StripHyphens(s) != "" ==> StripHyphens(s)[0] != '-' && StripHyphens(s)[|StripHyphens(s)| - 1] != '-'
  {
    if s != "" && s[0] == '-' {
      StripKeepsClean(s[1..]);
    } else if s != "" && s[|s| - 1] == '-' {
      StripKeepsClean(s[..|s| - 1]);
    }
  }

  lemma {:induction false} CollapseFixesClean(s: string)
    requires SlugChars(s) && NoDoubleHyphen(s)
    ensures Collapse(s) == s
  {
    if s != "" {
      CollapseFixesClean(s[1..]);
      assert s == [s[0]] + s[1..];
      assert !Allowed(s[0]) ==> SkipOthers(s[1..]) == s[1..];
    }
  }

  /** Slugify gives a slug for every name, and leaves exactly the slugs as they are; so it is idempotent. */
  lemma SlugifyNormalises(lower: LowerCase, value: string)
    ensures IsSlug(Slugify(lower, value))
    ensures Slugify(lower, value) == value <==> IsSlug(value)
    ensures Slugify(lower, Slugify(lower, value)) == Slugify(lower, value)
  {
    SlugifyGivesSlug(lower, value);
    if IsSlug(value) {
      SlugifyFixesSlug(lower, value);
    }
    SlugifyFixesSlug(lower, Slugify(lower, value));
  }

  lemma SlugifyGivesSlug(lower: LowerCase, value: string)
    ensures IsSlug(Slugify(lower, value))
  {
    var s := StripSpaces(lower(value));
    CollapseIsClean(s);
    StripKeepsClean(Collapse(s));
  }

  lemma SlugifyFixesSlug(lower: LowerCase, slug: string)
    requires IsSlug(slug)
    ensures Slugify(lower, slug) == slug
  {
    CollapseFixesClean(slug);
    assert lower(slug) == slug;
  }

  // ---------------------------------------------------------------- the words of a name

  /** The maximal runs of allowed characters, in order. */
  function Words(s: string): (ws: seq<string>)
    ensures s != "" && Allowed(s[0]) ==> |ws| >= 1
  {
    if s == "" then []
    else
      var rest := Words(s[1..]);
      if !Allowed(s[0]) then rest
      else if |s| > 1 && Allowed(s[1]) then [[s[0]] + rest[0]] + rest[1..]
      else [[s[0]]] + rest
  }

  function JoinWords(ws: seq<string>): string {
    if ws == [] then "" else Join(ws, '-')
  }

  predicate StartsOther(s: string) {
    s != "" && !Allowed(s[0])
  }

  predicate EndsOther(s: string) {
    s != "" && !Allowed(s[|s| - 1])
  }

  lemma {:induction false} SkippingKeepsWords(s: string)
    ensures Words(SkipOthers(s)) == Words(s)
    ensures Words(s) != [] ==> (EndsOther(SkipOthers(s)) <==> EndsOther(s))
    ensures s != "" && Words(s) == [] ==> EndsOther(s)
  {
    if StartsOther(s) {
      SkippingKeepsWords(s[1..]);
    }
  }

  lemma JoinLongerHead(c: char, ws: seq<string>)
    requires ws != []
    ensures Join([[c] + ws[0]] + ws[1..], '-') == [c] + Join(ws, '-')
  {
    assert ([[c] + ws[0]] + ws[1..])[1..] == ws[1..];
    if |ws| > 1 {
      assert [c] + ws[0] + ['-'] + Join(ws[1..], '-') == [c] + (ws[0] + ['-'] + Join(ws[1..], '-'));
    }
  }

  lemma JoinNewHead(c: char, ws: seq<string>)
    requires ws != []
    ensures Join([[c]] + ws, '-') == [c] + (['-'] + Join(ws, '-'))
  {
    assert ([[c]] + ws)[1..] == ws;
  }

  /** Putting an allowed character before a text lengthens its first word, or starts a new one. */
  lemma PrependedWord(s: string)
    requires s != "" && Allowed(s[0])
    ensures var t := s[1..];
            JoinWords(Words(s)) == [s[0]] + if StartsOther(t) && Words(t) != [] then ['-'] + JoinWords(Words(t)) else JoinWords(Words(t))
  {
    hide Join;
    var rest := Words(s[1..]);
    if |s| > 1 && Allowed(s[1]) {
      JoinLongerHead(s[0], rest);
    } else if rest != [] {
      assert |s| > 1;
      JoinNewHead(s[0], rest);
    } else {
      OneWord([s[0]]);
      assert Words(s) == [[s[0]]];
    }
  }

  lemma OneWord(w: string)
    ensures Join([w], '-') == w
  {
  }

  lemma CollapseOther(s: string)
    requires StartsOther(s)
    ensures Collapse(s) == ['-'] + Collapse(SkipOthers(s[1..])) && !StartsOther(SkipOthers(s[1..]))
    ensures Words(SkipOthers(s[1..])) == Words(s)
    ensures Words(s) != [] ==> (EndsOther(SkipOthers(s[1..])) <==> EndsOther(s))
    ensures Words(s) == [] ==> EndsOther(s) && SkipOthers(s[1..]) == ""
  {
    SkippingKeepsWords(s[1..]);
    SkippingKeepsWords(s);
  }

  /** Collapsing keeps the words and joins them, with a hyphen more where the text ends with others. */
  lemma {:induction false} CollapseJoinsWords(s: string)
    requires !StartsOther(s)
    ensures Collapse(s) == if EndsOther(s) then JoinWords(Words(s)) + ['-'] else JoinWords(Words(s))
    decreases |s|
  {
    if s != "" {
      var t := s[1..];
      PrependedWord(s);
      assert Collapse(s) == [s[0]] + Collapse(t);
      if StartsOther(t) {
        CollapseOther(t);
        CollapseJoinsWords(SkipOthers(t[1..]));
      } else {
        CollapseJoinsWords(t);
      }
      assert t != "" ==> (EndsOther(t) <==> EndsOther(s));
      hide Words, JoinWords, Collapse, Allowed;
    }
  }

  lemma {:induction false} WordsIgnoreLast(s: string)
    requires EndsOther(s)
    ensures Words(s[..|s| - 1]) == Words(s)
  {
    if |s| > 1 {
      WordsIgnoreLast(s[1..]);
      assert s[..|s| - 1][1..] == s[1..][..|s| - 2];
    }
  }

  lemma {:induction false} StrippingKeepsWords(s: string)
    ensures Words(StripSpaces(s)) == Words(s)
  {
    if s != "" && IsSpace(s[0]) {
      StrippingKeepsWords(s[1..]);
    } else if s != "" && IsSpace(s[|s| - 1]) {
      WordsIgnoreLast(s);
      StrippingKeepsWords(s[..|s| - 1]);
    }
  }

  /** Words begin and end with allowed characters, and so does their join. */
  lemma {:induction false} JoinedWordsEnds(s: string)
    ensures JoinWords(Words(s)) == "" <==> Words(s) == []
    ensures Words(s) != [] ==>
              && JoinWords(Words(s))[0] != '-'
              && JoinWords(Words(s))[|JoinWords(Words(s))| - 1] != '-'
  {
    if s != "" {
      JoinedWordsEnds(s[1..]);
      if Allowed(s[0]) {
        PrependedWord(s);
      }
    }
  }

  lemma TrimmedCollapse(s: string)
    requires !StartsOther(s)
    ensures StripHyphens(Collapse(s)) == JoinWords(Words(s))
  {
    CollapseJoinsWords(s);
    JoinedWordsEnds(s);
    hide Words, JoinWords, Collapse;
    var j := JoinWords(Words(s));
    assert (j + ['-'])[..|j|] == j;
    assert s != "" ==> Words(s) != [];
  }

  /** A slug is the words of the lower-cased name, joined by hyphens; a name without any is a workspace. */
  lemma SlugIsJoinedWords(lower: LowerCase, value: string)
    ensures Slugify(lower, value) ==
            if Words(lower(value)) == [] then "workspace" else Join(Words(lower(value)), '-')
  {
    hide Join, Words;
    var s := StripSpaces(lower(value));
    StrippingKeepsWords(lower(value));
    JoinedWordsEnds(s);
    if StartsOther(s) {
      CollapseOther(s);
      TrimmedCollapse(SkipOthers(s[1..]));
      assert (['-'] + Collapse(SkipOthers(s[1..])))[1..] == Collapse(SkipOthers(s[1..]));
    } else {
      TrimmedCollapse(s);
    }
  }

  // ---------------------------------------------------------------- uniqueness

  /** The k-th slug tried. */
  function Candidate(base: string, k: nat): string {
    if k == 0 then base else base + "-" + Print(k)
  }

  lemma CandidatesDiffer(base: string, i: nat, k: nat)
    requires i != k
    ensures Candidate(base, i) != Candidate(base, k)
  {
    ValueOfPrint(i);
    ValueOfPrint(k);
    assert i > 0 ==> Candidate(base, i)[|base| + 1..] == Print(i);
    assert k > 0 ==> Candidate(base, k)[|base| + 1..] == Print(k);
  }

  /** Pigeonhole: if the first `k` candidates are all taken, at least `k` slugs are. */
  lemma {:induction false} TakenCandidates(base: string, k: nat, existing: set<string>)
    requires forall i: nat :: i < k ==> Candidate(base, i) in existing
    ensures k <= |existing|
  {
    if k > 0 {
      var last := Candidate(base, k - 1);
      forall i: nat | i < k - 1 ensures Candidate(base, i) in existing - {last} {
        CandidatesDiffer(base, i, k - 1);
      }
      TakenCandidates(base, k - 1, existing - {last});
      assert existing == existing - {last} + {last};
    }
  }

  /** The first free candidate, found within one probe more than there are slugs. */
  method UniqueSlug(existing: set<string>, base: string) returns (slug: string, probes: nat)
    ensures slug !in existing
    ensures 1 <= probes <= |existing| + 1
    ensures slug == Candidate(base, probes - 1)
    ensures slug == if probes == 1 then base else base + "-" + Print(probes - 1)
    ensures forall i: nat :: i < probes - 1 ==> Candidate(base, i) in existing
  {
    slug := base;
    var counter := 1;
    while slug in existing
      invariant counter >= 1 && slug == Candidate(base, counter - 1)
      invariant forall i: nat :: i < counter - 1 ==> Candidate(base, i) in existing
      invariant counter - 1 <= |existing|
      decreases |existing| - (counter - 1)
    {
      TakenCandidates(base, counter, existing);
      slug := base + "-" + Print(counter);
      counter := counter + 1;
    }
    probes := counter;
  }

  /** The variants of a slug are slugs, so registering twice under one name still gives well-formed slugs. */
  lemma CandidatesAreSlugs(base: string, k: nat)
    requires IsSlug(base)
    ensures IsSlug(Candidate(base, k))
  {
  }
}
