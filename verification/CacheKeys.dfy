/** Keys and patterns of the response cache, as strings. */
module CacheKeys {
  import opened Wrappers
  import opened Text
  import opened Sorting

  // ---------------------------------------------------------------- patterns

  /** Glob matching with `*` and `?`; patterns with brackets or backslashes are outside this definition. */
  predicate Matches(pattern: string, s: string)
    decreases |pattern| + |s|
  {
    if pattern == "" then s == ""
    else if pattern[0] == '*' then Matches(pattern[1..], s) || (s != "" && Matches(pattern, s[1..]))
    else s != "" && (pattern[0] == '?' || pattern[0] == s[0]) && Matches(pattern[1..], s[1..])
  }

  predicate GlobFree(s: string) {
    forall c :: c in s ==> c != '*' && c != '?' && c != '[' && c != ']' && c != '\\'
  }

  lemma {:induction false} StarMatchesAll(s: string)
    ensures Matches("*", s)
  {
    if s == "" {
      assert "*"[1..] == "" && Matches("", "");
    } else {
      StarMatchesAll(s[1..]);
    }
  }

  lemma {:induction false} LiteralThenStar(p: string, s: string)
    requires GlobFree(p)
    ensures Matches(p + "*", s) <==> p <= s
  {
    if p == "" {
      assert p + "*" == "*";
      StarMatchesAll(s);
    } else {
      assert p[0] in p && (p + "*")[0] == p[0];
      assert (p + "*")[1..] == p[1..] + "*";
      if s != "" {
        assert forall c :: c in p[1..] ==> c in p;
        LiteralThenStar(p[1..], s[1..]);
        assert p <= s <==> p[0] == s[0] && p[1..] <= s[1..];
      }
    }
  }

  /** A pattern without stars and question marks matches itself. */
  lemma {:induction false} LiteralMatchesItself(p: string, s: string)
    requires GlobFree(p)
    ensures Matches(p, s) <==> s == p
  {
    if p != "" {
      assert p[0] in p && forall c :: c in p[1..] ==> c in p;
      if s != "" {
        LiteralMatchesItself(p[1..], s[1..]);
        assert s == p <==> s[0] == p[0] && s[1..] == p[1..];
      }
    }
  }

  /** A question mark stands for one character. */
  lemma {:induction false} QuestionMarkMatchesOne(p: string, q: string, s: string)
    requires GlobFree(p) && GlobFree(q)
    ensures Matches(p + (['?'] + q), s) <==> |s| == |p| + 1 + |q| && s[..|p|] == p && s[|p| + 1..] == q
  {
    if p == "" {
      assert p + (['?'] + q) == ['?'] + q && (['?'] + q)[1..] == q;
      if s != "" {
        LiteralMatchesItself(q, s[1..]);
      }
    } else {
      var t := p + (['?'] + q);
      assert p[0] in p && t[0] == p[0] && t[1..] == p[1..] + (['?'] + q);
      assert forall c :: c in p[1..] ==> c in p;
      if s != "" {
        QuestionMarkMatchesOne(p[1..], q, s[1..]);
        if |s| == |p| + 1 + |q| {
          assert s[..|p|] == [s[0]] + s[1..][..|p| - 1] && p == [p[0]] + p[1..];
          assert s[1..][|p|..] == s[|p| + 1..];
        }
      }
    }
  }

  /** A pattern that every glob dialect reads alike. */
  predicate Simple(pattern: string) {
    '[' !in pattern && '\\' !in pattern
  }

  ghost predicate ReadsGlobs(f: (string, string) -> bool) {
    forall pattern, s :: Simple(pattern) ==> f(pattern, s) == Matches(pattern, s)
  }

  /** A dialect of glob matching: `*` and `?` mean the same in each, brackets and backslashes need not. */
  type Matcher = f: (string, string) -> bool | ReadsGlobs(f) ghost witness Matches

  // ---------------------------------------------------------------- query parameters

  type Params = seq<(string, string)>

  /** Setting a name in an ordered dictionary. */
  function Put(items: Params, p: (string, string)): (r: Params)
    ensures r != []
  {
    if items == [] then [p]
    else if items[0].0 == p.0 then [p] + items[1..]
    else [items[0]] + Put(items[1..], p)
  }

  /** The items of a query string: of a repeated name only the last value counts. */
  function Items(params: Params): (r: Params)
    ensures params != [] ==> r != []
  {
    if params == [] then [] else Put(Items(params[..|params| - 1]), params[|params| - 1])
  }

  function LastValues(params: Params): map<string, string> {
    if params == [] then map[]
    else
      var last := params[|params| - 1];
      LastValues(params[..|params| - 1])[last.0 := last.1]
  }

  ghost predicate DistinctNames(items: Params) {
    forall i, j :: 0 <= i < j < |items| ==> items[i].0 != items[j].0
  }

  /** `items` lists the dictionary `m`, each name once. */
  ghost predicate Lists(items: Params, m: map<string, string>) {
    DistinctNames(items) && forall p :: p in items <==> p.0 in m && m[p.0] == p.1
  }

  lemma TailLists(items: Params, m: map<string, string>)
    requires Lists(items, m) && items != []
    ensures items[0] in items && Lists(items[1..], m - {items[0].0})
  {
    var head, rest := items[0], items[1..];
    assert forall q :: q in items <==> q == head || q in rest;
    assert forall q :: q in rest ==> q.0 != head.0;
  }

  lemma HeadLists(head: (string, string), rest: Params, m: map<string, string>)
    requires Lists(rest, m) && head.0 !in m
    ensures Lists([head] + rest, m[head.0 := head.1])
  {
    assert forall q :: q in [head] + rest <==> q == head || q in rest;
    assert forall q :: q in rest ==> q.0 in m;
  }

  lemma {:induction false} PutLists(items: Params, p: (string, string), m: map<string, string>)
    requires Lists(items, m)
    ensures Lists(Put(items, p), m[p.0 := p.1])
  {
    if items == [] {
      HeadLists(p, [], m);
      assert [p] + [] == [p];
    } else {
      var head, rest := items[0], items[1..];
      TailLists(items, m);
      assert m[head.0] == head.1;
      if head.0 == p.0 {
        HeadLists(p, rest, m - {p.0});
        hide Lists;
        assert (m - {p.0})[p.0 := p.1] == m[p.0 := p.1];
      } else {
        PutLists(rest, p, m - {head.0});
        HeadLists(head, Put(rest, p), (m - {head.0})[p.0 := p.1]);
        hide Lists;
        assert (m - {head.0})[p.0 := p.1][head.0 := head.1] == m[p.0 := p.1];
      }
    }
  }

  lemma {:induction false} ItemsListLastValues(params: Params)
    ensures Lists(Items(params), LastValues(params))
  {
    if params != [] {
      var init, last := params[..|params| - 1], params[|params| - 1];
      ItemsListLastValues(init);
      PutLists(Items(init), last, LastValues(init));
    }
  }

  lemma {:induction false} CountDistinct(items: Params, p: (string, string))
    requires DistinctNames(items)
    ensures multiset(items)[p] == if p in items then 1 else 0
  {
    if items != [] {
      assert items == [items[0]] + items[1..];
      CountDistinct(items[1..], p);
    }
  }

  lemma SameDictionarySameItems(a: Params, b: Params, m: map<string, string>)
    requires Lists(a, m) && Lists(b, m)
    ensures multiset(a) == multiset(b)
  {
    forall p ensures multiset(a)[p] == multiset(b)[p] {
      CountDistinct(a, p);
      CountDistinct(b, p);
    }
  }

  function SortedItems(params: Params): Params {
    Sort(PairLeq, Items(params))
  }

  /** Sorting the items forgets exactly the order of the query and all but the last value of each name. */
  lemma SortedItemsForgetExactly(a: Params, b: Params)
    ensures SortedItems(a) == SortedItems(b) <==> LastValues(a) == LastValues(b)
  {
    ItemsListLastValues(a);
    ItemsListLastValues(b);
    if LastValues(a) == LastValues(b) {
      SameDictionarySameItems(Items(a), Items(b), LastValues(a));
      PairIsTotalOrder();
      PermutationsSortAlike(PairLeq, Items(a), Items(b));
    } else if SortedItems(a) == SortedItems(b) {
      hide Items, Sort, LastValues;
      assert multiset(Items(a)) == multiset(Items(b));
      forall name ensures name in LastValues(a) <==> name in LastValues(b)
                  ensures name in LastValues(a) ==> LastValues(a)[name] == LastValues(b)[name]
      {
        SameMember(a, b, name);
        SameMember(b, a, name);
      }
    }
  }

  lemma SameMember(a: Params, b: Params, name: string)
    requires multiset(Items(a)) == multiset(Items(b)) && Lists(Items(a), LastValues(a)) && Lists(Items(b), LastValues(b))
    ensures name in LastValues(a) ==> name in LastValues(b) && LastValues(a)[name] == LastValues(b)[name]
  {
    if name in LastValues(a) {
      var p := (name, LastValues(a)[name]);
      assert p in Items(a);
      assert p in multiset(Items(b));
    }
  }

  /** A query without repeated names is its own dictionary, whatever its order. */
  lemma {:induction false} DistinctListItself(params: Params)
    requires DistinctNames(params)
    ensures Lists(params, LastValues(params))
  {
    if params != [] {
      var init, last := params[..|params| - 1], params[|params| - 1];
      assert params == init + [last];
      DistinctListItself(init);
      assert forall q :: q in params <==> q == last || q in init;
    }
  }

  lemma PermutedQueriesAgree(a: Params, b: Params)
    requires DistinctNames(a) && DistinctNames(b) && multiset(a) == multiset(b)
    ensures LastValues(a) == LastValues(b)
  {
    DistinctListItself(a);
    DistinctListItself(b);
    forall p ensures p in a <==> p in b {
      assert p in multiset(a) <==> p in multiset(b);
    }
    hide LastValues;
    forall name ensures name in LastValues(a) <==> name in LastValues(b)
                ensures name in LastValues(a) ==> LastValues(a)[name] == LastValues(b)[name]
    {
      if name in LastValues(a) {
        assert (name, LastValues(a)[name]) in a;
      }
      if name in LastValues(b) {
        assert (name, LastValues(b)[name]) in b;
      }
    }
  }

  function Assignment(p: (string, string)): string {
    p.0 + (['='] + p.1)
  }

  function Assignments(items: Params): seq<string> {
    seq(|items|, i requires 0 <= i < |items| => Assignment(items[i]))
  }

  function ParamString(params: Params): string
    requires params != []
  {
    assert |SortedItems(params)| == |multiset(SortedItems(params))| == |multiset(Items(params))| == |Items(params)|;
    Join(Assignments(SortedItems(params)), '&')
  }

  /** Names without the separators, and values without the one between assignments. */
  ghost predicate Separable(m: map<string, string>) {
    forall name :: name in m ==> '=' !in name && '&' !in name && '&' !in m[name]
  }

  lemma AssignmentSplits(p: (string, string), q: (string, string))
    requires '=' !in p.0 && '=' !in q.0
    ensures Assignment(p) == Assignment(q) <==> p == q
  {
    SeparatorSplits('=', p.0, p.1, q.0, q.1);
  }

  lemma SeparableAssignments(params: Params)
    requires Separable(LastValues(params))
    ensures forall i :: 0 <= i < |SortedItems(params)| ==> '=' !in SortedItems(params)[i].0
    ensures forall s :: s in Assignments(SortedItems(params)) ==> '&' !in s
  {
    ItemsListLastValues(params);
    var items := SortedItems(params);
    hide Items, LastValues, Sort;
    forall i | 0 <= i < |items| ensures '=' !in items[i].0 && '&' !in Assignment(items[i]) {
      assert items[i] in multiset(items);
      assert items[i] in Items(params);
    }
  }

  /** For separable parameters the string says what they are, and nothing else. */
  lemma ParamStringDeterminesParams(a: Params, b: Params)
    requires a != [] && b != [] && Separable(LastValues(a)) && Separable(LastValues(b))
    ensures ParamString(a) == ParamString(b) <==> LastValues(a) == LastValues(b)
  {
    SortedItemsForgetExactly(a, b);
    SeparableAssignments(a);
    SeparableAssignments(b);
    if ParamString(a) == ParamString(b) {
      var x, y := SortedItems(a), SortedItems(b);
      hide SortedItems, LastValues, Items, Assignment;
      JoinIsInjective(Assignments(x), Assignments(y), '&');
      assert Assignments(x) == Assignments(y) && |x| == |Assignments(x)| && |y| == |Assignments(y)|;
      forall i | 0 <= i < |x| ensures x[i] == y[i] {
        assert Assignments(x)[i] == Assignment(x[i]) && Assignments(y)[i] == Assignment(y[i]);
        AssignmentSplits(x[i], y[i]);
      }
    }
  }

  lemma OneParam(p: (string, string))
    ensures LastValues([p]) == map[p.0 := p.1] && Items([p]) == [p] && ParamString([p]) == Assignment(p)
  {
    hide PairLeq, Assignment;
    assert [p][..0] == [] && [p][1..] == [];
    assert Items([p]) == Put([], p) == [p];
    assert Sort(PairLeq, [p]) == [p];
    assert Assignments([p]) == [Assignment(p)];
  }

  lemma SortTwo(p: (string, string), q: (string, string))
    requires PairLeq(p, q)
    ensures Sort(PairLeq, [p, q]) == [p, q]
  {
    hide PairLeq;
    assert [p, q][1..] == [q] && [q][1..] == [];
    assert Sort(PairLeq, [q]) == [q];
  }

  lemma TwoItems(p: (string, string), q: (string, string))
    requires p.0 != q.0 && PairLeq(p, q)
    ensures LastValues([p, q]) == map[p.0 := p.1, q.0 := q.1] && SortedItems([p, q]) == [p, q]
  {
    OneParam(p);
    SortTwo(p, q);
    hide PairLeq, Assignment, Sort, Insert;
    assert [p, q][..1] == [p] && [p][1..] == [];
    assert Put([p], q) == [p, q];
    assert Items([p, q]) == Put(Items([p]), q) == [p, q];
  }

  lemma TwoParams(p: (string, string), q: (string, string))
    requires p.0 != q.0 && PairLeq(p, q)
    ensures LastValues([p, q]) == map[p.0 := p.1, q.0 := q.1]
    ensures ParamString([p, q]) == Assignment(p) + ['&'] + Assignment(q)
  {
    TwoItems(p, q);
    hide PairLeq, Assignment, LastValues, SortedItems;
    var x, y := Assignment(p), Assignment(q);
    assert Assignments([p, q]) == [x, y] && [x, y][1..] == [y];
    assert Join([y], '&') == y;
    assert Join([x, y], '&') == x + ['&'] + y;
  }

  /** A value with a separator reads like two parameters. */
  lemma SeparatorsConfuseQueries()
    ensures var a, b := [("a", "1&b=2")], [("a", "1"), ("b", "2")];
            LastValues(a) != LastValues(b) && ParamString(a) == ParamString(b)
  {
    OneParam(("a", "1&b=2"));
    TwoParams(("a", "1"), ("b", "2"));
    hide ParamString, LastValues;
    assert Assignment(("a", "1&b=2")) == Assignment(("a", "1")) + ['&'] + Assignment(("b", "2"));
    assert "b" !in map["a" := "1&b=2"];
  }

  /** Of a repeated name only the last value enters, so reordering a query can change its string. */
  lemma RepeatedNameKeepsLastValue(name: string, v: string, w: string)
    ensures ParamString([(name, v), (name, w)]) == Assignment((name, w))
    ensures ParamString([(name, v), (name, w)]) == ParamString([(name, w), (name, v)]) <==> v == w
  {
    hide ParamString;
    RepeatedName(name, v, w);
    RepeatedName(name, w, v);
    CancelPrefix(name + ['='], v, w);
    assert Assignment((name, v)) == name + ['='] + v && Assignment((name, w)) == name + ['='] + w;
  }

  lemma RepeatedName(name: string, v: string, w: string)
    ensures ParamString([(name, v), (name, w)]) == Assignment((name, w))
  {
    OneParam((name, v));
    OneParam((name, w));
    var a := [(name, v), (name, w)];
    assert a[..1] == [(name, v)] && Items(a) == [(name, w)];
    assert Items(a) == Items([(name, w)]);
  }

  // ---------------------------------------------------------------- keys

  function FirstChars(s: string, n: nat): string {
    if |s| <= n then s else s[..n]
  }

  /** What a request varies on; no workspace for endpoints that do not vary on it. */
  datatype Request = Request(workspace: Option<string>, path: string, params: Params)

  /** The digits of the parameters that enter the key; `md5` is the hexadecimal digest. */
  function QueryDigest(params: Params, md5: string -> string): Option<string> {
    if params == [] then None else Some(FirstChars(md5(ParamString(params)), 12))
  }

  function KeyParts(prefix: string, r: Request, varyOnQuery: bool, md5: string -> string): seq<string> {
    var digest := QueryDigest(r.params, md5);
    [prefix]
    + (if r.workspace.Some? then ["ws:" + r.workspace.value] else [])
    + ["p:" + FirstChars(md5(r.path), 8)]
    + (if varyOnQuery && digest.Some? then ["q:" + digest.value] else [])
  }

  function CacheKey(prefix: string, r: Request, varyOnQuery: bool, md5: string -> string): string {
    Join(KeyParts(prefix, r, varyOnQuery, md5), ':')
  }

  function InvalidationPattern(prefix: string, workspace: Option<string>): string {
    if workspace.Some? && workspace.value != "" then prefix + ":ws:" + workspace.value + ":*" else prefix + ":*"
  }

  function FullKey(namespace: string, key: string): string {
    namespace + ":" + key
  }

  /** Queries with the same last value of each name share a key; permutations without repeated names do. */
  lemma KeyForgetsParameterOrder(prefix: string, r: Request, params: Params, vary: bool, md5: string -> string)
    requires LastValues(params) == LastValues(r.params)
    ensures CacheKey(prefix, r.(params := params), vary, md5) == CacheKey(prefix, r, vary, md5)
  {
    SortedItemsForgetExactly(params, r.params);
    assert params == [] <==> LastValues(params) == map[] by {
      assert params != [] ==> params[|params| - 1].0 in LastValues(params);
    }
    assert r.params == [] <==> LastValues(r.params) == map[] by {
      assert r.params != [] ==> r.params[|r.params| - 1].0 in LastValues(r.params);
    }
  }

  lemma PrefixByHead(s: string, t: string)
    requires s != "" && t != ""
    ensures s <= t <==> s[0] == t[0] && s[1..] <= t[1..]
  {
  }

  /** Colon-free first segments can be compared on their own. */
  lemma {:induction false} SegmentPrefix(a: string, x: string, b: string, y: string)
    requires ':' !in a && ':' !in b
    ensures a + ([':'] + x) <= b + ([':'] + y) <==> a == b && x <= y
  {
    var s, t := a + ([':'] + x), b + ([':'] + y);
    PrefixByHead(s, t);
    if a == "" {
      assert s[1..] == x && (b == "" ==> t[1..] == y);
    } else if b != "" {
      SegmentPrefix(a[1..], x, b[1..], y);
      assert s[1..] == a[1..] + ([':'] + x) && t[1..] == b[1..] + ([':'] + y);
      assert a == b <==> a[0] == b[0] && a[1..] == b[1..];
    }
  }

  lemma JoinHead(head: string, tail: seq<string>)
    requires |tail| >= 1
    ensures Join([head] + tail, ':') == head + ([':'] + Join(tail, ':'))
  {
  }

  /** The end of every key: a path segment and, where the query counts, a query segment. */
  function PathAndQuery(r: Request, varyOnQuery: bool, md5: string -> string): string {
    var digest := QueryDigest(r.params, md5);
    "p" + ([':'] + (FirstChars(md5(r.path), 8)
                    + if varyOnQuery && digest.Some? then [':'] + ("q:" + digest.value) else ""))
  }

  function AfterPrefix(r: Request, varyOnQuery: bool, md5: string -> string): string {
    var tail := PathAndQuery(r, varyOnQuery, md5);
    if r.workspace.Some? then "ws" + ([':'] + (r.workspace.value + ([':'] + tail))) else tail
  }

  lemma PathPartsJoin(hash: string, query: seq<string>)
    requires |query| <= 1
    ensures Join(["p:" + hash] + query, ':') == "p" + ([':'] + (hash + if query == [] then "" else [':'] + query[0]))
  {
    if query == [] {
      assert ["p:" + hash] + query == ["p:" + hash];
      assert "p:" + hash == "p" + ([':'] + (hash + ""));
    } else {
      JoinHead("p:" + hash, query);
      assert Join(query, ':') == query[0];
      assert ("p:" + hash) + ([':'] + query[0]) == "p" + ([':'] + (hash + ([':'] + query[0])));
    }
  }

  lemma KeyShape(prefix: string, r: Request, vary: bool, md5: string -> string)
    ensures CacheKey(prefix, r, vary, md5) == prefix + ([':'] + AfterPrefix(r, vary, md5))
  {
    hide Join, FirstChars, QueryDigest;
    var parts, hash, digest := KeyParts(prefix, r, vary, md5), FirstChars(md5(r.path), 8), QueryDigest(r.params, md5);
    var query := if vary && digest.Some? then ["q:" + digest.value] else [];
    PathPartsJoin(hash, query);
    if r.workspace.Some? {
      var w := "ws:" + r.workspace.value;
      assert parts == [prefix] + ([w] + (["p:" + hash] + query));
      JoinHead(prefix, [w] + (["p:" + hash] + query));
      JoinHead(w, ["p:" + hash] + query);
      hide KeyParts;
      var tail := PathAndQuery(r, vary, md5);
      assert w + ([':'] + tail) == "ws" + ([':'] + (r.workspace.value + ([':'] + tail)));
    } else {
      assert parts == [prefix] + (["p:" + hash] + query);
      JoinHead(prefix, ["p:" + hash] + query);
    }
  }

  lemma SameWorkspaceTails(q: Request, r: Request, vary: bool, md5: string -> string)
    requires q.workspace == r.workspace
    ensures AfterPrefix(q, vary, md5) == AfterPrefix(r, vary, md5) <==> PathAndQuery(q, vary, md5) == PathAndQuery(r, vary, md5)
  {
    hide PathAndQuery;
    var x, y := PathAndQuery(q, vary, md5), PathAndQuery(r, vary, md5);
    if r.workspace.Some? {
      var w := r.workspace.value;
      CancelPrefix("ws", [':'] + (w + ([':'] + x)), [':'] + (w + ([':'] + y)));
      CancelPrefix([':'], w + ([':'] + x), w + ([':'] + y));
      CancelPrefix(w, [':'] + x, [':'] + y);
      CancelPrefix([':'], x, y);
    }
  }

  /** Two queries share the key of a request exactly when they share a digest, or are both empty. */
  lemma QueriesShareKeyExactly(prefix: string, r: Request, params: Params, md5: string -> string)
    ensures CacheKey(prefix, r.(params := params), true, md5) == CacheKey(prefix, r, true, md5)
            <==> QueryDigest(params, md5) == QueryDigest(r.params, md5)
  {
    hide CacheKey, QueryDigest, FirstChars, AfterPrefix;
    var q := r.(params := params);
    KeyShape(prefix, q, true, md5);
    KeyShape(prefix, r, true, md5);
    CancelPrefix(prefix, [':'] + AfterPrefix(q, true, md5), [':'] + AfterPrefix(r, true, md5));
    CancelPrefix([':'], AfterPrefix(q, true, md5), AfterPrefix(r, true, md5));
    SameWorkspaceTails(q, r, true, md5);
    TailsAgreeExactly(FirstChars(md5(r.path), 8), QueryDigest(params, md5), QueryDigest(r.params, md5));
  }

  lemma TailsAgreeExactly(hash: string, d: Option<string>, e: Option<string>)
    ensures "p" + ([':'] + (hash + if d.Some? then [':'] + ("q:" + d.value) else ""))
            == "p" + ([':'] + (hash + if e.Some? then [':'] + ("q:" + e.value) else ""))
            <==> d == e
  {
    var x, y := if d.Some? then [':'] + ("q:" + d.value) else "", if e.Some? then [':'] + ("q:" + e.value) else "";
    CancelPrefix("p" + ([':'] + hash), x, y);
    assert "p" + ([':'] + (hash + x)) == ("p" + ([':'] + hash)) + x;
    assert "p" + ([':'] + (hash + y)) == ("p" + ([':'] + hash)) + y;
    assert d.Some? ==> x[3..] == d.value;
    assert e.Some? ==> y[3..] == e.value;
  }

  ghost predicate Hexadecimal32(md5: string -> string) {
    forall s :: |md5(s)| == 32
  }

  /**
    * Which requests share a key, in terms of the digests alone: those of one prefix and one workspace whose paths
    * agree in the first eight characters of their digests, and, where the query counts, whose queries are both
    * empty or agree in the first twelve.
    */
  lemma KeysAgreeExactly(prefix: string, a: Request, other: string, b: Request, vary: bool, md5: string -> string)
    requires Hexadecimal32(md5) && ':' !in prefix && ':' !in other
    requires (a.workspace.Some? ==> ':' !in a.workspace.value) && (b.workspace.Some? ==> ':' !in b.workspace.value)
    ensures CacheKey(prefix, a, vary, md5) == CacheKey(other, b, vary, md5)
            <==> && prefix == other && a.workspace == b.workspace
                 && md5(a.path)[..8] == md5(b.path)[..8]
                 && (vary ==>
                       || (a.params == [] && b.params == [])
                       || (a.params != [] && b.params != []
                           && md5(ParamString(a.params))[..12] == md5(ParamString(b.params))[..12]))
  {
    hide Join, CacheKey, ParamString;
    KeyShape(prefix, a, vary, md5);
    KeyShape(other, b, vary, md5);
    SeparatorSplits(':', prefix, AfterPrefix(a, vary, md5), other, AfterPrefix(b, vary, md5));
    TailsAgree(a, b, vary, md5);
    hide FirstChars, QueryDigest;
    var x, y := PathAndQuery(a, vary, md5), PathAndQuery(b, vary, md5);
    if a.workspace.Some? && b.workspace.Some? {
      SeparatorSplits(':', a.workspace.value, x, b.workspace.value, y);
      SeparatorSplits(':', "ws", a.workspace.value + ([':'] + x), "ws", b.workspace.value + ([':'] + y));
    } else if a.workspace.Some? {
      assert AfterPrefix(a, vary, md5)[0] == 'w' && AfterPrefix(b, vary, md5)[0] == 'p';
    } else if b.workspace.Some? {
      assert AfterPrefix(b, vary, md5)[0] == 'w' && AfterPrefix(a, vary, md5)[0] == 'p';
    }
  }

  lemma TailsAgree(a: Request, b: Request, vary: bool, md5: string -> string)
    requires Hexadecimal32(md5)
    ensures PathAndQuery(a, vary, md5) == PathAndQuery(b, vary, md5)
            <==> && md5(a.path)[..8] == md5(b.path)[..8]
                 && (vary ==>
                       || (a.params == [] && b.params == [])
                       || (a.params != [] && b.params != []
                           && md5(ParamString(a.params))[..12] == md5(ParamString(b.params))[..12]))
  {
    hide ParamString;
    var d, e := if vary then QueryDigest(a.params, md5) else None, if vary then QueryDigest(b.params, md5) else None;
    var x, y := if d.Some? then [':'] + ("q:" + d.value) else "", if e.Some? then [':'] + ("q:" + e.value) else "";
    var g, h := md5(a.path)[..8], md5(b.path)[..8];
    assert PathAndQuery(a, vary, md5) == "p" + ([':'] + (g + x));
    assert PathAndQuery(b, vary, md5) == "p" + ([':'] + (h + y));
    hide QueryDigest, FirstChars, PathAndQuery;
    SeparatorSplits(':', "p", g + x, "p", h + y);
    assert (g + x)[..8] == g && (g + x)[8..] == x && (h + y)[..8] == h && (h + y)[8..] == y;
    assert d.Some? ==> x[3..] == d.value;
    assert e.Some? ==> y[3..] == e.value;
  }

  /** Namespaces are kept apart. */
  lemma FullKeysAgreeExactly(namespace: string, key: string, other: string, theirs: string)
    requires ':' !in namespace && ':' !in other
    ensures FullKey(namespace, key) == FullKey(other, theirs) <==> namespace == other && key == theirs
  {
    SeparatorSplits(':', namespace, key, other, theirs);
    assert FullKey(namespace, key) == namespace + ([':'] + key) && FullKey(other, theirs) == other + ([':'] + theirs);
  }

  // ---------------------------------------------------------------- what a pattern covers

  predicate Plain(s: string) {
    ':' !in s && GlobFree(s)
  }

  /** How the keys of one prefix and workspace begin. */
  function Stem(prefix: string, workspace: string): string {
    prefix + ([':'] + ("ws" + ([':'] + (workspace + [':']))))
  }

  lemma PatternIsStem(namespace: string, stem: string, key: string)
    requires Plain(namespace) && GlobFree(stem)
    ensures Matches(FullKey(namespace, stem + "*"), FullKey(namespace, key)) <==> stem <= key
  {
    var literal := namespace + ([':'] + stem);
    assert FullKey(namespace, stem + "*") == literal + "*";
    assert FullKey(namespace, key) == namespace + ([':'] + key);
    LiteralThenStar(literal, FullKey(namespace, key));
    SegmentPrefix(namespace, stem, namespace, key);
  }

  /** The pattern for prefix and workspace covers a response of the prefix whose workspace and path continue it. */
  ghost predicate Covers(prefix: string, workspace: Option<string>, other: string, r: Request, vary: bool, md5: string -> string) {
    && other == prefix
    && (workspace.Some? && workspace.value != "" ==>
          r.workspace.Some? && workspace.value + [':'] <= r.workspace.value + ([':'] + PathAndQuery(r, vary, md5)))
  }

  lemma WorkspaceStemCovers(prefix: string, workspace: string, other: string, r: Request, vary: bool, md5: string -> string)
    requires ':' !in prefix && ':' !in other && workspace != ""
    ensures Stem(prefix, workspace) <= other + ([':'] + AfterPrefix(r, vary, md5))
            <==> Covers(prefix, Some(workspace), other, r, vary, md5)
  {
    var tail := PathAndQuery(r, vary, md5);
    SegmentPrefix(prefix, "ws" + ([':'] + (workspace + [':'])), other, AfterPrefix(r, vary, md5));
    if r.workspace.Some? {
      SegmentPrefix("ws", workspace + [':'], "ws", r.workspace.value + ([':'] + tail));
    } else {
      assert tail[0] == 'p';
    }
  }

  /** What invalidating removes, for any workspace id that is free of glob characters, and for none. */
  lemma InvalidationCovers(namespace: string, prefix: string, workspace: Option<string>, other: string, r: Request,
                           vary: bool, md5: string -> string)
    requires Plain(namespace) && Plain(prefix) && ':' !in other && (workspace.Some? ==> GlobFree(workspace.value))
    ensures Matches(FullKey(namespace, InvalidationPattern(prefix, workspace)), FullKey(namespace, CacheKey(other, r, vary, md5)))
            <==> Covers(prefix, workspace, other, r, vary, md5)
  {
    hide AfterPrefix, PathAndQuery, CacheKey, Matches;
    KeyShape(other, r, vary, md5);
    var key := CacheKey(other, r, vary, md5);
    if workspace.Some? && workspace.value != "" {
      var stem := Stem(prefix, workspace.value);
      assert InvalidationPattern(prefix, workspace) == stem + "*";
      PatternIsStem(namespace, stem, key);
      WorkspaceStemCovers(prefix, workspace.value, other, r, vary, md5);
    } else {
      var stem := prefix + ([':'] + "");
      assert InvalidationPattern(prefix, workspace) == stem + "*";
      PatternIsStem(namespace, stem, key);
      SegmentPrefix(prefix, "", other, AfterPrefix(r, vary, md5));
    }
  }

  /** For a colon-free id: the same workspace, and any whose id continues this one after a colon. */
  lemma CoveredWorkspaces(workspace: string, theirs: string, tail: string)
    requires ':' !in workspace
    ensures workspace + [':'] <= theirs + ([':'] + tail) <==> theirs == workspace || workspace + [':'] <= theirs
  {
    var s, t := workspace + [':'], theirs + ([':'] + tail);
    assert t[|theirs|] == ':' && t[..|theirs|] == theirs && s[..|workspace|] == workspace;
    if s <= t {
      assert forall i :: 0 <= i < |workspace| ==> workspace[i] == t[i];
      assert |theirs| >= |workspace|;
      assert |theirs| > |workspace| ==> s == theirs[..|s|];
    }
  }

  /**
    * How exact invalidation is: the pattern for a prefix and a colon-free workspace matches the key of a
    * response exactly when it was stored under that prefix, for that workspace or for one whose id continues
    * it after a colon. Among colon-free ids it removes nothing of another workspace.
    */
  lemma InvalidationIsExact(namespace: string, prefix: string, workspace: string, other: string, r: Request,
                            vary: bool, md5: string -> string)
    requires Plain(namespace) && Plain(prefix) && Plain(workspace) && workspace != "" && ':' !in other
    ensures Matches(FullKey(namespace, InvalidationPattern(prefix, Some(workspace))), FullKey(namespace, CacheKey(other, r, vary, md5)))
            <==> other == prefix && r.workspace.Some?
                 && (r.workspace.value == workspace || workspace + ":" <= r.workspace.value)
  {
    hide Matches, CacheKey;
    InvalidationCovers(namespace, prefix, Some(workspace), other, r, vary, md5);
    if r.workspace.Some? {
      CoveredWorkspaces(workspace, r.workspace.value, PathAndQuery(r, vary, md5));
    }
  }

  /** So invalidating workspace 1 also removes every response of workspace 1:2. */
  lemma ColonInWorkspaceOverreaches(prefix: string, r: Request, vary: bool, md5: string -> string)
    requires Plain(prefix) && r.workspace == Some("1:2")
    ensures Matches(FullKey("response", InvalidationPattern(prefix, Some("1"))), FullKey("response", CacheKey(prefix, r, vary, md5)))
  {
    hide Matches, CacheKey;
    InvalidationIsExact("response", prefix, "1", prefix, r, vary, md5);
  }
}
