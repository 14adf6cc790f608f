/** Shortening addresses and texts so that little of them is left. */
module StringRedaction {
  import opened Text

  const MAX_LENGTH: nat := 20

  /** The first position of `c`; the length of `s` if there is none. */
  function IndexOf(s: string, c: char): (i: nat)
    ensures i <= |s| && c !in s[..i]
    ensures i < |s| <==> c in s
    ensures i < |s| ==> s[i] == c
  {
    if s == "" || s[0] == c then 0 else
      assert s == [s[0]] + s[1..];
      1 + IndexOf(s[1..], c)
  }

  /** The last position of `c`, where there is one. */
  function LastIndexOf(s: string, c: char): (i: nat)
    requires c in s
    ensures i < |s| && s[i] == c && c !in s[i + 1..]
  {
    if s[|s| - 1] == c then |s| - 1 else
      assert s == s[..|s| - 1] + [s[|s| - 1]];
      LastIndexOf(s[..|s| - 1], c)
  }

  function Stars(n: nat): (s: string)
    ensures |s| == n && forall i :: 0 <= i < n ==> s[i] == '*'
  {
    seq(n, _ => '*')
  }

  function RedactLocal(local: string): string {
    if |local| <= 2 then Stars(|local|) else [local[0]] + "***" + [local[|local| - 1]]
  }

  function RedactDomainName(name: string): string {
    if |name| <= 2 then Stars(|name|) else [name[0]] + "***"
  }

  function RedactDomain(domain: string): string {
    if '.' !in domain then "***"
    else
      var dot := LastIndexOf(domain, '.');
      RedactDomainName(domain[..dot]) + domain[dot..]
  }

  function RedactEmail(email: string): string {
    if email == "" then ""
    else if '@' !in email then "***@***"
    else
      var at := IndexOf(email, '@');
      RedactLocal(email[..at]) + (['@'] + RedactDomain(email[at + 1..]))
  }

  /** What follows the length: nothing, or the first characters. */
  function Excerpt(s: string): string {
    if |s| <= MAX_LENGTH then " chars]" else " chars: \"" + s[..MAX_LENGTH] + "...\"]"
  }

  function TruncateString(s: string): string {
    if s == "" then "" else "[" + (Print(|s|) + Excerpt(s))
  }

  /** All that a truncated string may show. */
  predicate TruncatedAlike(s: string, t: string) {
    |s| == |t| && (|s| <= MAX_LENGTH || s[..MAX_LENGTH] == t[..MAX_LENGTH])
  }

  predicate LocalsAlike(a: string, b: string) {
    if |a| <= 2 || |b| <= 2 then |a| == |b| else a[0] == b[0] && a[|a| - 1] == b[|b| - 1]
  }

  predicate NamesAlike(a: string, b: string) {
    if |a| <= 2 || |b| <= 2 then |a| == |b| else a[0] == b[0]
  }

  predicate DomainsAlike(a: string, b: string) {
    if '.' !in a || '.' !in b then '.' !in a && '.' !in b
    else
      var i, k := LastIndexOf(a, '.'), LastIndexOf(b, '.');
      a[i..] == b[k..] && NamesAlike(a[..i], b[..k])
  }

  /** All that a redacted address may show: ends of the local part, start of the domain, and its last label. */
  predicate EmailsAlike(e: string, f: string) {
    if e == "" || f == "" then e == f
    else if '@' !in e || '@' !in f then '@' !in e && '@' !in f
    else
      var i, k := IndexOf(e, '@'), IndexOf(f, '@');
      LocalsAlike(e[..i], f[..k]) && DomainsAlike(e[i + 1..], f[k + 1..])
  }

  // ---------------------------------------------------------------- what a truncated text shows

  lemma ExcerptShowsExactly(s: string, t: string)
    requires |s| == |t|
    ensures Excerpt(s) == Excerpt(t) <==> TruncatedAlike(s, t)
  {
    if |s| > MAX_LENGTH {
      assert s[..MAX_LENGTH] == Excerpt(s)[9..][..MAX_LENGTH] && t[..MAX_LENGTH] == Excerpt(t)[9..][..MAX_LENGTH];
    }
  }

  /** And no less: a truncated string shows its length and, beyond twenty characters, its first twenty. */
  lemma TruncationShowsExactly(s: string, t: string)
    ensures TruncateString(s) == TruncateString(t) <==> TruncatedAlike(s, t)
  {
    if s != "" && t != "" {
      assert Excerpt(s)[0] == Excerpt(t)[0] == ' ';
      NumeralsAreDelimited(|s|, |t|, Excerpt(s), Excerpt(t));
      if |s| == |t| {
        ExcerptShowsExactly(s, t);
      }
      CancelPrefix("[", Print(|s|) + Excerpt(s), Print(|t|) + Excerpt(t));
    }
  }

  // ---------------------------------------------------------------- addresses

  lemma LocalIsIdempotent(local: string)
    ensures RedactLocal(RedactLocal(local)) == RedactLocal(local)
    ensures '@' !in local ==> '@' !in RedactLocal(local)
  {
  }

  lemma {:induction false} LastIndexOfSplit(a: string, c: char, b: string)
    requires c !in b
    ensures c in a + [c] + b && LastIndexOf(a + [c] + b, c) == |a|
  {
    var s := a + [c] + b;
    assert s[|a|] == c;
    if b != "" {
      LastIndexOfSplit(a, c, b[..|b| - 1]);
      assert s[..|s| - 1] == a + [c] + b[..|b| - 1];
    }
  }

  lemma {:induction false} IndexOfSplit(a: string, c: char, b: string)
    requires c !in a
    ensures IndexOf(a + [c] + b, c) == |a|
  {
    if a != "" {
      IndexOfSplit(a[1..], c, b);
      assert (a + [c] + b)[1..] == a[1..] + [c] + b;
    }
  }

  lemma DomainNameIsIdempotent(name: string)
    ensures RedactDomainName(RedactDomainName(name)) == RedactDomainName(name)
  {
  }

  lemma SplitsAtLastDot(name: string, rest: string)
    requires '.' !in rest
    ensures RedactDomain(name + (['.'] + rest)) == RedactDomainName(name) + (['.'] + rest)
  {
    hide RedactDomainName, LastIndexOf;
    var domain := name + ['.'] + rest;
    LastIndexOfSplit(name, '.', rest);
    assert domain == name + (['.'] + rest);
    assert domain[..|name|] == name && domain[|name|..] == ['.'] + rest;
  }

  lemma DomainIsIdempotent(domain: string)
    ensures RedactDomain(RedactDomain(domain)) == RedactDomain(domain)
  {
    if '.' in domain {
      var dot := LastIndexOf(domain, '.');
      var name, rest := domain[..dot], domain[dot + 1..];
      hide RedactDomain, RedactDomainName, LastIndexOf;
      assert domain == name + (['.'] + rest);
      SplitsAtLastDot(name, rest);
      SplitsAtLastDot(RedactDomainName(name), rest);
      DomainNameIsIdempotent(name);
    }
  }

  lemma SplitsAtFirstAt(local: string, domain: string)
    requires '@' !in local
    ensures RedactEmail(local + (['@'] + domain)) == RedactLocal(local) + (['@'] + RedactDomain(domain))
  {
    hide RedactLocal, RedactDomain, IndexOf;
    var email := local + ['@'] + domain;
    IndexOfSplit(local, '@', domain);
    assert email[|local|] == '@' && email == local + (['@'] + domain);
    assert email[..|local|] == local && email[|local| + 1..] == domain;
  }

  lemma AddressIsIdempotent(email: string)
    requires '@' in email
    ensures RedactEmail(RedactEmail(email)) == RedactEmail(email)
  {
    var at := IndexOf(email, '@');
    var local, domain := email[..at], email[at + 1..];
    hide RedactEmail, RedactLocal, RedactDomain, IndexOf;
    assert email == local + (['@'] + domain);
    LocalIsIdempotent(local);
    DomainIsIdempotent(domain);
    SplitsAtFirstAt(local, domain);
    SplitsAtFirstAt(RedactLocal(local), RedactDomain(domain));
  }

  /** Redacting an address twice is redacting it once, exactly for strings that are empty or contain an '@'. */
  lemma RedactEmailIsIdempotent(email: string)
    ensures RedactEmail(RedactEmail(email)) == RedactEmail(email) <==> email == "" || '@' in email
  {
    if '@' in email {
      AddressIsIdempotent(email);
    } else if email != "" {
      assert RedactEmail(email) == "***@***";
      assert |RedactLocal("***")| == 5 && RedactDomain("***") == "***";
      hide RedactEmail, RedactLocal, RedactDomain;
      assert "***@***" == "***" + (['@'] + "***");
      SplitsAtFirstAt("***", "***");
      assert |RedactEmail("***@***")| == 9;
    }
  }

  // ---------------------------------------------------------------- what a redacted address shows

  lemma LocalShowsExactly(a: string, b: string)
    ensures RedactLocal(a) == RedactLocal(b) <==> LocalsAlike(a, b)
  {
    var x, y := RedactLocal(a), RedactLocal(b);
    if |a| > 2 && |b| > 2 {
      assert x[0] == a[0] && x[4] == a[|a| - 1] && y[0] == b[0] && y[4] == b[|b| - 1];
    }
  }

  lemma NameShowsExactly(a: string, b: string)
    ensures RedactDomainName(a) == RedactDomainName(b) <==> NamesAlike(a, b)
  {
    var x, y := RedactDomainName(a), RedactDomainName(b);
    if |a| > 2 && |b| > 2 {
      assert x[0] == a[0] && y[0] == b[0];
    }
  }

  /** Equal strings have their last dot in the same place. */
  lemma LastDotSplits(a: string, p: string, b: string, q: string)
    requires '.' !in p && '.' !in q
    ensures a + (['.'] + p) == b + (['.'] + q) <==> a == b && p == q
  {
    hide LastIndexOf;
    LastIndexOfSplit(a, '.', p);
    LastIndexOfSplit(b, '.', q);
    var s, t := a + ['.'] + p, b + ['.'] + q;
    assert s == a + (['.'] + p) && t == b + (['.'] + q);
    assert s[..|a|] == a && s[|a| + 1..] == p && t[..|b|] == b && t[|b| + 1..] == q;
  }

  lemma DomainShowsExactly(a: string, b: string)
    ensures RedactDomain(a) == RedactDomain(b) <==> DomainsAlike(a, b)
  {
    if '.' in a && '.' in b {
      var i, k := LastIndexOf(a, '.'), LastIndexOf(b, '.');
      NameShowsExactly(a[..i], b[..k]);
      LastDotSplits(RedactDomainName(a[..i]), a[i + 1..], RedactDomainName(b[..k]), b[k + 1..]);
      hide RedactDomainName, NamesAlike, LastIndexOf;
      assert a[i..] == ['.'] + a[i + 1..] && b[k..] == ['.'] + b[k + 1..];
      assert a[i..][1..] == a[i + 1..] && b[k..][1..] == b[k + 1..];
    } else {
      assert '.' !in "***";
      assert '.' in a ==> '.' in RedactDomain(a);
      assert '.' in b ==> '.' in RedactDomain(b);
    }
  }

  lemma PartsShowExactly(a: string, d: string, b: string, e: string)
    requires '@' !in a && '@' !in b
    ensures RedactEmail(a + (['@'] + d)) == RedactEmail(b + (['@'] + e)) <==> LocalsAlike(a, b) && DomainsAlike(d, e)
  {
    hide RedactEmail, RedactDomain, DomainsAlike;
    SplitsAtFirstAt(a, d);
    SplitsAtFirstAt(b, e);
    LocalIsIdempotent(a);
    LocalIsIdempotent(b);
    LocalShowsExactly(a, b);
    DomainShowsExactly(d, e);
    hide RedactLocal, LocalsAlike;
    SeparatorSplits('@', RedactLocal(a), RedactDomain(d), RedactLocal(b), RedactDomain(e));
  }

  /** A redacted address shows exactly this much of the address: no more, and no less. */
  lemma RedactedEmailShowsExactly(e: string, f: string)
    ensures RedactEmail(e) == RedactEmail(f) <==> EmailsAlike(e, f)
  {
    hide RedactEmail, RedactLocal, RedactDomain, LocalsAlike, DomainsAlike, IndexOf;
    if '@' in e && '@' in f {
      var i, k := IndexOf(e, '@'), IndexOf(f, '@');
      assert e == e[..i] + (['@'] + e[i + 1..]) && f == f[..k] + (['@'] + f[k + 1..]);
      PartsShowExactly(e[..i], e[i + 1..], f[..k], f[k + 1..]);
    } else {
      AddressDiffersFromPlaceholder(e);
      AddressDiffersFromPlaceholder(f);
    }
  }

  lemma AddressDiffersFromPlaceholder(e: string)
    ensures RedactEmail(e) == "***@***" <==> e != "" && '@' !in e
    ensures RedactEmail(e) == "" <==> e == ""
  {
    if '@' in e {
      var i := IndexOf(e, '@');
      LocalIsIdempotent(e[..i]);
      assert |RedactLocal(e[..i])| != 3;
      hide RedactLocal, RedactDomain, IndexOf;
      SeparatorSplits('@', RedactLocal(e[..i]), RedactDomain(e[i + 1..]), "***", "***");
      assert "***@***" == "***" + (['@'] + "***");
    }
  }

  // ---------------------------------------------------------------- the texts themselves

  /** john.doe@example.com reads j***e@e***.com. */
  lemma LongAddressText(local: string, name: string, last: string)
    requires |local| > 2 && '@' !in local && |name| > 2 && '.' !in last
    ensures RedactEmail(local + (['@'] + (name + (['.'] + last))))
            == [local[0]] + "***" + [local[|local| - 1]] + (['@'] + ([name[0]] + "***" + (['.'] + last)))
  {
    SplitsAtFirstAt(local, name + (['.'] + last));
    SplitsAtLastDot(name, last);
  }

  /** Parts of one or two characters become as many stars, and a domain without a dot three. */
  lemma ShortAddressText(local: string, name: string, last: string)
    requires |local| <= 2 && '@' !in local && |name| <= 2 && '.' !in last
    ensures RedactEmail(local + (['@'] + (name + (['.'] + last)))) == "**"[..|local|] + (['@'] + ("**"[..|name|] + (['.'] + last)))
    ensures RedactEmail(local + (['@'] + last)) == "**"[..|local|] + (['@'] + "***")
  {
    hide RedactEmail, RedactDomain;
    SplitsAtFirstAt(local, name + (['.'] + last));
    SplitsAtLastDot(name, last);
    SplitsAtFirstAt(local, last);
    DotlessDomain(last);
    StarsText(local);
    StarsText(name);
    hide RedactLocal, RedactDomainName;
  }

  lemma DotlessDomain(domain: string)
    requires '.' !in domain
    ensures RedactDomain(domain) == "***"
  {
  }

  lemma StarsText(part: string)
    requires |part| <= 2
    ensures RedactLocal(part) == RedactDomainName(part) == "**"[..|part|]
  {
  }

  /** A truncated text reads [n chars] or [n chars: "its first twenty characters..."]. */
  lemma TruncationText(s: string)
    ensures s == "" ==> TruncateString(s) == ""
    ensures 0 < |s| <= 20 ==> TruncateString(s) == "[" + (Print(|s|) + " chars]")
    ensures |s| > 20 ==> TruncateString(s) == "[" + (Print(|s|) + (" chars: \"" + s[..20] + "...\"]"))
  {
    hide Print, RedactEmail;
  }
}
