/** Removing personal data from object graphs before they are logged. */
module Redaction {
  import opened Wrappers
  import opened Text
  import opened StringRedaction

  const MAX_DEPTH: nat := 10

  const REDACT_FIELDS := {
    "password", "secret", "accessToken", "refreshToken", "access_token", "refresh_token", "authorization", "cookie",
    "ssn", "social_security", "creditCard", "credit_card", "apiKey", "api_key", "privateKey", "private_key" }

  const TRUNCATE_FIELDS := {
    "subject", "snippet", "body", "bodyText", "bodyHtml", "body_text", "body_html", "content", "description",
    "message", "name", "displayName", "display_name", "title", "location" }

  const EMAIL_FIELDS := {
    "email", "from", "to", "cc", "bcc", "sender", "recipient", "replyTo", "reply_to", "emailAddress",
    "email_address", "organizer", "attendees" }

  function LowerChar(c: char): char {
    if 'A' <= c <= 'Z' then 'a' + (c - 'A') else c
  }

  function Lower(s: string): string {
    seq(|s|, i requires 0 <= i < |s| => LowerChar(s[i]))
  }

  predicate Listed(fields: set<string>, key: string) {
    key in fields || Lower(key) in fields
  }

  lemma LowerTwice(key: string)
    ensures Lower(Lower(key)) == Lower(key)
  {
    assert forall i :: 0 <= i < |key| ==> LowerChar(LowerChar(key[i])) == LowerChar(key[i]);
  }

  /** Every capitalisation of a name is listed exactly if the list holds the name in lower case. */
  lemma EverySpellingListedExactly(fields: set<string>, name: string)
    ensures (forall key :: Lower(key) == Lower(name) ==> Listed(fields, key)) <==> Lower(name) in fields
  {
    LowerTwice(name);
    if forall key :: Lower(key) == Lower(name) ==> Listed(fields, key) {
      assert Listed(fields, Lower(name));
    }
  }

  /** These names are recognised in every spelling. */
  lemma LowerCaseFieldsInEverySpelling(key: string)
    ensures (Lower(key) in {"password", "secret", "access_token", "refresh_token", "authorization", "cookie", "ssn",
                           "social_security", "credit_card", "api_key", "private_key"}) ==> Listed(REDACT_FIELDS, key)
    ensures (Lower(key) in {"subject", "snippet", "body", "body_text", "body_html", "content", "description", "message",
                           "name", "display_name", "title", "location"}) ==> Listed(TRUNCATE_FIELDS, key)
    ensures (Lower(key) in {"email", "from", "to", "cc", "bcc", "sender", "recipient", "reply_to", "email_address",
                           "organizer", "attendees"}) ==> Listed(EMAIL_FIELDS, key)
    ensures key in {"bodyText", "bodyHtml", "displayName"} ==> Listed(TRUNCATE_FIELDS, key)
    ensures key in {"replyTo", "emailAddress"} ==> Listed(EMAIL_FIELDS, key)
  {
    hide Lower;
  }

  /** So the secrets listed in mixed case are recognised in exactly the spelling listed. */
  lemma MixedCaseSecretsInOneSpelling(key: string)
    requires exists field :: field in {"accessToken", "refreshToken", "creditCard", "apiKey", "privateKey"} && Lower(key) == Lower(field)
    ensures Listed(REDACT_FIELDS, key) <==> key in {"accessToken", "refreshToken", "creditCard", "apiKey", "privateKey"}
  {
    assert Lower("accessToken") == "accesstoken" && Lower("refreshToken") == "refreshtoken";
    assert Lower("creditCard") == "creditcard" && Lower("apiKey") == "apikey" && Lower("privateKey") == "privatekey";
    assert Lower(key) !in REDACT_FIELDS;
    forall field | field in REDACT_FIELDS && field == key
      ensures field in {"accessToken", "refreshToken", "creditCard", "apiKey", "privateKey"}
    {
      if field !in {"accessToken", "refreshToken", "creditCard", "apiKey", "privateKey"} {
        LowerCaseSecrets(field);
      }
    }
  }

  lemma LowerCaseSecrets(field: string)
    requires field in REDACT_FIELDS && field !in {"accessToken", "refreshToken", "creditCard", "apiKey", "privateKey"}
    ensures Lower(field) == field
  {
    assert forall i :: 0 <= i < |field| ==> !('A' <= field[i] <= 'Z');
  }

  // ---------------------------------------------------------------- object graphs

  /** What a variable can hold: a primitive, or a reference into the heap. */
  datatype Val =
    | Null | Undefined | Bool(b: bool) | Number(n: real) | Str(s: string) | Opaque(tag: string) | Ref(id: nat)

  /** An object lists its own keys, each once, in the order they are enumerated. */
  datatype Node = Array(items: seq<Val>) | Object(entries: seq<(string, Val)>)

  /** Objects may refer to each other in any way, cycles included. */
  type Heap = map<nat, Node>

  function At(h: Heap, id: nat): Node {
    if id in h then h[id] else Object([])
  }

  datatype Out = Scalar(v: Val) | OutArray(items: seq<Out>) | OutObject(entries: seq<(string, Out)>)

  function Shown(s: string): Out {
    Scalar(Str(s))
  }

  predicate HasKey(entries: seq<(string, Val)>, key: string) {
    exists i :: 0 <= i < |entries| && entries[i].0 == key
  }

  function Get(entries: seq<(string, Val)>, key: string): Option<Val> {
    if entries == [] then None else if entries[0].0 == key then Some(entries[0].1) else Get(entries[1..], key)
  }

  predicate LooksLikeEmail(s: string) {
    '@' in s && '.' in s
  }

  predicate Participants(h: Heap, items: seq<Val>) {
    && items != [] && items[0].Ref? && At(h, items[0].id).Object?
    && (HasKey(At(h, items[0].id).entries, "email") || HasKey(At(h, items[0].id).entries, "address"))
  }

  function RedactEmailField(h: Heap, value: Val): Out {
    match value
    case Str(s) => Shown(RedactEmail(s))
    case Ref(id) =>
      (match At(h, id)
       case Array(items) => Shown("[" + Print(|items|) + " addresses]")
       case Object(entries) =>
         var email := Get(entries, "email");
         if email.Some? && email.value.Str? then OutObject([("email", Shown(RedactEmail(email.value.s)))])
         else Shown("[REDACTED]"))
    case _ => Scalar(value)
  }

  function Budget(depth: nat): nat {
    if depth > MAX_DEPTH then 0 else MAX_DEPTH + 1 - depth
  }

  /** Every graph is cut off at the same depth, so every call ends. */
  function RedactPII(h: Heap, v: Val, depth: nat): Out
    decreases Budget(depth), 2, 0
  {
    if depth > MAX_DEPTH then Shown("[MAX_DEPTH]")
    else
      match v
      case Str(s) => if LooksLikeEmail(s) then Shown(RedactEmail(s)) else Scalar(v)
      case Ref(id) =>
        (match At(h, id)
         case Array(items) =>
           if Participants(h, items) then Shown("[" + Print(|items|) + " participants]")
           else OutArray(RedactItems(h, items, depth))
         case Object(entries) => OutObject(RedactEntries(h, entries, depth)))
      case _ => Scalar(v)
  }

  function RedactItems(h: Heap, items: seq<Val>, depth: nat): (out: seq<Out>)
    requires depth <= MAX_DEPTH
    ensures |out| == |items|
    ensures forall i :: 0 <= i < |items| ==> out[i] == RedactPII(h, items[i], depth + 1)
    decreases Budget(depth), 1, |items|
  {
    if items == [] then [] else [RedactPII(h, items[0], depth + 1)] + RedactItems(h, items[1..], depth)
  }

  function RedactField(h: Heap, key: string, value: Val, depth: nat): Out
    requires depth <= MAX_DEPTH
    decreases Budget(depth), 0, 0
  {
    if Listed(REDACT_FIELDS, key) then Shown("[REDACTED]")
    else if Listed(TRUNCATE_FIELDS, key) then
      if value.Str? then Shown(TruncateString(value.s)) else Shown("[REDACTED]")
    else if Listed(EMAIL_FIELDS, key) then RedactEmailField(h, value)
    else RedactPII(h, value, depth + 1)
  }

  function RedactEntries(h: Heap, entries: seq<(string, Val)>, depth: nat): (out: seq<(string, Out)>)
    requires depth <= MAX_DEPTH
    ensures |out| == |entries|
    ensures forall i :: 0 <= i < |entries| ==>
              out[i] == (entries[i].0, RedactField(h, entries[i].0, entries[i].1, depth))
    decreases Budget(depth), 1, |entries|
  {
    if entries == [] then []
    else [(entries[0].0, RedactField(h, entries[0].0, entries[0].1, depth))] + RedactEntries(h, entries[1..], depth)
  }

  /** The value under the first entry of that name. */
  lemma {:induction false} GetFindsFirst(entries: seq<(string, Val)>, key: string, i: nat)
    requires i < |entries| && entries[i].0 == key && forall k :: 0 <= k < i ==> entries[k].0 != key
    ensures Get(entries, key) == Some(entries[i].1)
  {
    if i > 0 {
      GetFindsFirst(entries[1..], key, i - 1);
    }
  }

  /** What stands under a listed key, in so many words. */
  lemma FieldTexts(h: Heap, key: string, value: Val, depth: nat)
    requires depth <= MAX_DEPTH
    ensures var out := RedactField(h, key, value, depth);
            && (Listed(REDACT_FIELDS, key) ==> out == Scalar(Str("[REDACTED]")))
            && (!Listed(REDACT_FIELDS, key) && Listed(TRUNCATE_FIELDS, key) ==>
                  out == Scalar(Str(if value.Str? then TruncateString(value.s) else "[REDACTED]")))
            && (!Listed(REDACT_FIELDS, key) && !Listed(TRUNCATE_FIELDS, key) && Listed(EMAIL_FIELDS, key) ==>
                  && (value.Str? ==> out == Scalar(Str(RedactEmail(value.s))))
                  && (!value.Str? && !value.Ref? ==> out == Scalar(value))
                  && (value.Ref? && At(h, value.id).Array? ==>
                        out == Scalar(Str("[" + Print(|At(h, value.id).items|) + " addresses]")))
                  && (value.Ref? && At(h, value.id).Object? ==>
                        var email := Get(At(h, value.id).entries, "email");
                        out == if email.Some? && email.value.Str? then OutObject([("email", Scalar(Str(RedactEmail(email.value.s))))])
                               else Scalar(Str("[REDACTED]"))))
  {
    hide Listed, RedactEmail, Print, TruncateString, RedactPII;
  }

  /** The program's own form: recursion over arrays, and a loop that fills the result object. */
  method Redact(h: Heap, v: Val, depth: nat) returns (out: Out)
    ensures out == RedactPII(h, v, depth)
    ensures depth > 10 ==> out == Scalar(Str("[MAX_DEPTH]"))
    ensures depth <= 10 && !v.Ref? ==>
              out == if v.Str? && '@' in v.s && '.' in v.s then Scalar(Str(RedactEmail(v.s))) else Scalar(v)
    ensures depth <= 10 && v.Ref? && At(h, v.id).Array? ==>
              var items := At(h, v.id).items;
              var people := items != [] && items[0].Ref? && At(h, items[0].id).Object?
                            && exists i :: 0 <= i < |At(h, items[0].id).entries|
                                           && (At(h, items[0].id).entries[i].0 == "email" || At(h, items[0].id).entries[i].0 == "address");
              if people then out == Scalar(Str("[" + Print(|items|) + " participants]")) else out.OutArray? && |out.items| == |items|
    ensures depth <= 10 && v.Ref? && At(h, v.id).Object? ==>
              out.OutObject? && |out.entries| == |At(h, v.id).entries|
    decreases Budget(depth), 2
  {
    hide Print, RedactEmail, At, RedactItems, RedactEntries;
    if depth > MAX_DEPTH {
      return Shown("[MAX_DEPTH]");
    }
    if !v.Ref? {
      return if v.Str? && LooksLikeEmail(v.s) then Shown(RedactEmail(v.s)) else Scalar(v);
    }
    match At(h, v.id)
    case Array(items) =>
      if Participants(h, items) {
        return Shown("[" + Print(|items|) + " participants]");
      }
      var mapped := RedactEach(h, items, depth);
      return OutArray(mapped);
    case Object(entries) =>
      var result := FillResult(h, entries, depth);
      return OutObject(result);
  }

  method RedactEach(h: Heap, items: seq<Val>, depth: nat) returns (mapped: seq<Out>)
    requires depth <= MAX_DEPTH
    ensures mapped == RedactItems(h, items, depth)
    decreases Budget(depth), 1
  {
    hide RedactPII;
    mapped := [];
    for i := 0 to |items|
      invariant |mapped| == i && forall k :: 0 <= k < i ==> mapped[k] == RedactPII(h, items[k], depth + 1)
    {
      var item := Redact(h, items[i], depth + 1);
      mapped := mapped + [item];
    }
  }

  method FillResult(h: Heap, entries: seq<(string, Val)>, depth: nat) returns (result: seq<(string, Out)>)
    requires depth <= MAX_DEPTH
    ensures result == RedactEntries(h, entries, depth)
    ensures |result| == |entries|
    ensures forall i :: 0 <= i < |entries| ==>
              var (key, value) := entries[i];
              && result[i].0 == key
              && (Listed(REDACT_FIELDS, key) ==> result[i].1 == Scalar(Str("[REDACTED]")))
              && (!Listed(REDACT_FIELDS, key) && Listed(TRUNCATE_FIELDS, key) ==>
                    result[i].1 == Scalar(Str(if value.Str? then TruncateString(value.s) else "[REDACTED]")))
              && (!Listed(REDACT_FIELDS, key) && !Listed(TRUNCATE_FIELDS, key) && Listed(EMAIL_FIELDS, key) ==>
                    && (value.Str? ==> result[i].1 == Scalar(Str(RedactEmail(value.s))))
                    && (!value.Str? && !value.Ref? ==> result[i].1 == Scalar(value))
                    && (value.Ref? && At(h, value.id).Array? ==>
                          result[i].1 == Scalar(Str("[" + Print(|At(h, value.id).items|) + " addresses]")))
                    && (value.Ref? && At(h, value.id).Object? ==>
                          var email := Get(At(h, value.id).entries, "email");
                          result[i].1 == if email.Some? && email.value.Str?
                                         then OutObject([("email", Scalar(Str(RedactEmail(email.value.s))))])
                                         else Scalar(Str("[REDACTED]"))))
    decreases Budget(depth), 1
  {
    hide Listed, RedactPII, RedactEmailField, TruncateString, RedactEntries, RedactEmail, Print, HasKey, At;
    result := [];
    for i := 0 to |entries|
      invariant |result| == i
      invariant forall k :: 0 <= k < i ==> result[k] == RedactEntries(h, entries, depth)[k]
    {
      var (key, value) := entries[i];
      var field: Out;
      if Listed(REDACT_FIELDS, key) {
        field := Shown("[REDACTED]");
      } else if Listed(TRUNCATE_FIELDS, key) {
        field := if value.Str? then Shown(TruncateString(value.s)) else Shown("[REDACTED]");
      } else if Listed(EMAIL_FIELDS, key) {
        field := RedactEmailField(h, value);
      } else {
        field := Redact(h, value, depth + 1);
      }
      result := result + [(key, field)];
    }
    hide RedactField;
    forall i | 0 <= i < |entries| {
      FieldTexts(h, entries[i].0, entries[i].1, depth);
    }
  }

  // ---------------------------------------------------------------- non-interference

  /** Pairs of objects, one of each graph, that are to look alike. */
  type Pairing = iset<(nat, nat)>

  ghost predicate ValuesAlike(r: Pairing, v: Val, w: Val) {
    if v.Ref? && w.Ref? then (v.id, w.id) in r
    else if v.Str? && w.Str? then v == w || (LooksLikeEmail(v.s) && LooksLikeEmail(w.s) && EmailsAlike(v.s, w.s))
    else v == w
  }

  /**
    * Under a redacted key anything goes; under a truncated key and under an address key only the shown part
    * of strings must agree.
    */
  ghost predicate FieldsAlike(r: Pairing, key: string, v: Val, w: Val) {
    if Listed(REDACT_FIELDS, key) then true
    else if Listed(TRUNCATE_FIELDS, key) then
      if v.Str? && w.Str? then TruncatedAlike(v.s, w.s) else !v.Str? && !w.Str?
    else if Listed(EMAIL_FIELDS, key) && v.Str? && w.Str? then EmailsAlike(v.s, w.s)
    else ValuesAlike(r, v, w)
  }

  ghost predicate NodesAlike(r: Pairing, m: Node, n: Node) {
    match (m, n)
    case (Array(xs), Array(ys)) => |xs| == |ys| && forall i :: 0 <= i < |xs| ==> ValuesAlike(r, xs[i], ys[i])
    case (Object(xs), Object(ys)) =>
      |xs| == |ys| && forall i :: 0 <= i < |xs| ==> xs[i].0 == ys[i].0 && FieldsAlike(r, xs[i].0, xs[i].1, ys[i].1)
    case _ => false
  }

  /** Paired objects differ only beneath redacted keys and in the hidden part of truncated strings and addresses. */
  ghost predicate GraphsAlike(g: Heap, h: Heap, r: Pairing) {
    forall a, b :: (a, b) in r ==> NodesAlike(r, At(g, a), At(h, b))
  }

  lemma ParticipantsAlike(g: Heap, h: Heap, r: Pairing, xs: seq<Val>, ys: seq<Val>)
    requires GraphsAlike(g, h, r) && NodesAlike(r, Array(xs), Array(ys))
    ensures Participants(g, xs) <==> Participants(h, ys)
  {
  }

  /** Fields under one key of two alike objects are alike. */
  lemma {:induction false} GetAlike(r: Pairing, xs: seq<(string, Val)>, ys: seq<(string, Val)>, key: string)
    requires NodesAlike(r, Object(xs), Object(ys))
    ensures Get(xs, key).Some? <==> Get(ys, key).Some?
    ensures Get(xs, key).Some? ==> FieldsAlike(r, key, Get(xs, key).value, Get(ys, key).value)
  {
    hide FieldsAlike;
    if xs != [] {
      assert xs[0].0 == ys[0].0 && FieldsAlike(r, xs[0].0, xs[0].1, ys[0].1);
      assert NodesAlike(r, Object(xs[1..]), Object(ys[1..]));
      GetAlike(r, xs[1..], ys[1..], key);
    }
  }

  lemma EmailIsAddressKey()
    ensures Listed(EMAIL_FIELDS, "email") && !Listed(REDACT_FIELDS, "email") && !Listed(TRUNCATE_FIELDS, "email")
  {
    assert Lower("email") == "email";
  }

  lemma EmailFieldsAlike(g: Heap, h: Heap, r: Pairing, v: Val, w: Val)
    requires GraphsAlike(g, h, r)
    requires if v.Str? && w.Str? then EmailsAlike(v.s, w.s) else ValuesAlike(r, v, w)
    ensures RedactEmailField(g, v) == RedactEmailField(h, w)
  {
    hide Listed, RedactEmail, EmailsAlike, Print;
    if v.Str? && w.Str? {
      RedactedEmailShowsExactly(v.s, w.s);
    } else if v.Ref? && w.Ref? {
      var m, n := At(g, v.id), At(h, w.id);
      assert NodesAlike(r, m, n);
      if m.Object? {
        EmailIsAddressKey();
        GetAlike(r, m.entries, n.entries, "email");
        var x, y := Get(m.entries, "email"), Get(n.entries, "email");
        if x.Some? && x.value.Str? && y.value.Str? {
          RedactedEmailShowsExactly(x.value.s, y.value.s);
        }
      }
    }
  }

  lemma {:induction false} FieldsRedactAlike(g: Heap, h: Heap, r: Pairing, key: string, v: Val, w: Val, depth: nat)
    requires depth <= MAX_DEPTH && GraphsAlike(g, h, r) && FieldsAlike(r, key, v, w)
    ensures RedactField(g, key, v, depth) == RedactField(h, key, w, depth)
    decreases Budget(depth), 0
  {
    hide Listed;
    if Listed(REDACT_FIELDS, key) || Listed(TRUNCATE_FIELDS, key) {
    } else if Listed(EMAIL_FIELDS, key) {
      EmailFieldsAlike(g, h, r, v, w);
    } else {
      RedactionHidesSecrets(g, h, r, v, w, depth + 1);
    }
  }

  /**
    * Non-interference, on graphs of any shape: two values that differ only beneath redacted keys, beyond the
    * first characters of truncated strings, and in the hidden part of addresses have the same redaction.
    */
  lemma {:induction false} RedactionHidesSecrets(g: Heap, h: Heap, r: Pairing, v: Val, w: Val, depth: nat)
    requires GraphsAlike(g, h, r) && ValuesAlike(r, v, w)
    ensures RedactPII(g, v, depth) == RedactPII(h, w, depth)
    decreases Budget(depth), 1
  {
    hide RedactEmail, EmailsAlike, Print, RedactField, FieldsAlike, Participants;
    if v.Str? && w.Str? {
      RedactedEmailShowsExactly(v.s, w.s);
    } else if depth <= MAX_DEPTH && v.Ref? && w.Ref? {
      var m, n := At(g, v.id), At(h, w.id);
      assert NodesAlike(r, m, n);
      if m.Array? {
        ParticipantsAlike(g, h, r, m.items, n.items);
        forall i | 0 <= i < |m.items| ensures RedactPII(g, m.items[i], depth + 1) == RedactPII(h, n.items[i], depth + 1) {
          RedactionHidesSecrets(g, h, r, m.items[i], n.items[i], depth + 1);
        }
        assert RedactItems(g, m.items, depth) == RedactItems(h, n.items, depth);
      } else {
        forall i | 0 <= i < |m.entries|
          ensures RedactField(g, m.entries[i].0, m.entries[i].1, depth) == RedactField(h, n.entries[i].0, n.entries[i].1, depth)
        {
          FieldsRedactAlike(g, h, r, m.entries[i].0, m.entries[i].1, n.entries[i].1, depth);
        }
        assert RedactEntries(g, m.entries, depth) == RedactEntries(h, n.entries, depth);
      }
    }
  }

  /** Overwriting any field under a redacted key, with anything, changes no redaction anywhere in the graph. */
  lemma SecretFieldsDoNotShow(h: Heap, id: nat, k: nat, secret: Val, root: Val, depth: nat)
    requires id in h && h[id].Object? && k < |h[id].entries| && Listed(REDACT_FIELDS, h[id].entries[k].0)
    ensures RedactPII(h[id := Object(h[id].entries[k := (h[id].entries[k].0, secret)])], root, depth) == RedactPII(h, root, depth)
  {
    hide Listed;
    var g := h[id := Object(h[id].entries[k := (h[id].entries[k].0, secret)])];
    var r: Pairing := iset i: nat | true :: (i, i);
    forall a, b | (a, b) in r ensures NodesAlike(r, At(g, a), At(h, b)) {
      assert a == b;
    }
    RedactionHidesSecrets(g, h, r, root, root, depth);
  }

  // ---------------------------------------------------------------- what is left to see

  /** The output is the value, copied: the same arrays and objects, keys and scalars. */
  ghost predicate Copies(h: Heap, v: Val, out: Out)
    decreases out
  {
    if !v.Ref? then out == Scalar(v)
    else
      match At(h, v.id)
      case Array(items) =>
        out.OutArray? && |out.items| == |items| && forall i :: 0 <= i < |items| ==> Copies(h, items[i], out.items[i])
      case Object(entries) =>
        out.OutObject? && |out.entries| == |entries|
        && forall i :: 0 <= i < |entries| ==> out.entries[i].0 == entries[i].0 && Copies(h, entries[i].1, out.entries[i].1)
  }

  predicate ListedAnywhere(key: string) {
    Listed(REDACT_FIELDS, key) || Listed(TRUNCATE_FIELDS, key) || Listed(EMAIL_FIELDS, key)
  }

  /** Nothing to hide within the depth: no listed keys, no addresses, no participants, and not too deep. */
  ghost predicate Harmless(h: Heap, v: Val, depth: nat)
    decreases Budget(depth)
  {
    depth <= 10
    && match v
       case Str(s) => !LooksLikeEmail(s)
       case Ref(id) =>
         (match At(h, id)
          case Array(items) => !Participants(h, items) && forall i :: 0 <= i < |items| ==> Harmless(h, items[i], depth + 1)
          case Object(entries) =>
            forall i :: 0 <= i < |entries| ==> !ListedAnywhere(entries[i].0) && Harmless(h, entries[i].1, depth + 1))
       case _ => true
  }

  /** What there is no reason to hide comes out as it is, every scalar unchanged. */
  lemma {:induction false} HarmlessIsCopied(h: Heap, v: Val, depth: nat, out: Out)
    requires Harmless(h, v, depth)
    ensures out == RedactPII(h, v, depth) <==> Copies(h, v, out)
    decreases Budget(depth)
  {
    hide Listed, RedactEmail, Participants, Print, At;
    if v.Ref? {
      match At(h, v.id)
      case Array(items) =>
        var all := RedactItems(h, items, depth);
        forall i, o | 0 <= i < |items| ensures o == RedactPII(h, items[i], depth + 1) <==> Copies(h, items[i], o) {
          HarmlessIsCopied(h, items[i], depth + 1, o);
        }
        assert RedactPII(h, v, depth) == OutArray(all);
        assert Copies(h, v, out) ==> out.items == all by {
          if Copies(h, v, out) {
            forall i | 0 <= i < |items| ensures out.items[i] == all[i] {
              assert Copies(h, items[i], out.items[i]);
            }
          }
        }
      case Object(entries) =>
        var all := RedactEntries(h, entries, depth);
        forall i, o | 0 <= i < |entries| ensures o == RedactField(h, entries[i].0, entries[i].1, depth) <==> Copies(h, entries[i].1, o) {
          HarmlessIsCopied(h, entries[i].1, depth + 1, o);
        }
        assert RedactPII(h, v, depth) == OutObject(all);
        assert Copies(h, v, out) ==> out.entries == all by {
          if Copies(h, v, out) {
            forall i | 0 <= i < |entries| ensures out.entries[i] == all[i] {
              assert Copies(h, entries[i].1, out.entries[i].1);
            }
          }
        }
    }
  }

  /** Nothing ambiguous within the depth: no addresses but under address keys, no participants, and not too deep. */
  ghost predicate Open(h: Heap, v: Val, depth: nat)
    decreases Budget(depth), 1
  {
    depth <= 10
    && match v
       case Str(s) => !LooksLikeEmail(s)
       case Ref(id) =>
         (match At(h, id)
          case Array(items) => !Participants(h, items) && forall i :: 0 <= i < |items| ==> Open(h, items[i], depth + 1)
          case Object(entries) => forall i :: 0 <= i < |entries| ==> OpenField(h, entries[i].0, entries[i].1, depth))
       case _ => true
  }

  ghost predicate OpenField(h: Heap, key: string, v: Val, depth: nat)
    requires depth <= 10
    decreases Budget(depth), 0
  {
    || Listed(REDACT_FIELDS, key) || Listed(TRUNCATE_FIELDS, key)
    || (if Listed(EMAIL_FIELDS, key) then !v.Ref? else Open(h, v, depth + 1))
  }

  /** Two values look alike down to the depth: equal but for what redacted, truncated and address keys hide. */
  ghost predicate LookAlike(g: Heap, h: Heap, v: Val, w: Val, depth: nat)
    decreases Budget(depth), 1
  {
    if depth > 10 then true
    else if !v.Ref? || !w.Ref? then v == w
    else
      match (At(g, v.id), At(h, w.id))
      case (Array(xs), Array(ys)) => |xs| == |ys| && forall i :: 0 <= i < |xs| ==> LookAlike(g, h, xs[i], ys[i], depth + 1)
      case (Object(xs), Object(ys)) =>
        |xs| == |ys| && forall i :: 0 <= i < |xs| ==> xs[i].0 == ys[i].0 && FieldsLookAlike(g, h, xs[i].0, xs[i].1, ys[i].1, depth)
      case _ => false
  }

  ghost predicate FieldsLookAlike(g: Heap, h: Heap, key: string, v: Val, w: Val, depth: nat)
    requires depth <= 10
    decreases Budget(depth), 0
  {
    if Listed(REDACT_FIELDS, key) then true
    else if Listed(TRUNCATE_FIELDS, key) then
      if v.Str? && w.Str? then TruncatedAlike(v.s, w.s) else !v.Str? && !w.Str?
    else if Listed(EMAIL_FIELDS, key) then
      if v.Str? && w.Str? then EmailsAlike(v.s, w.s) else v == w
    else LookAlike(g, h, v, w, depth + 1)
  }

  lemma {:induction false} FieldsShowExactly(g: Heap, h: Heap, key: string, v: Val, w: Val, depth: nat)
    requires depth <= 10 && OpenField(g, key, v, depth) && OpenField(h, key, w, depth)
    ensures RedactField(g, key, v, depth) == RedactField(h, key, w, depth) <==> FieldsLookAlike(g, h, key, v, w, depth)
    decreases Budget(depth), 0
  {
    hide Listed, RedactPII, LookAlike, Open, RedactEmailField, TruncateString, TruncatedAlike, EmailsAlike;
    if Listed(REDACT_FIELDS, key) {
    } else if Listed(TRUNCATE_FIELDS, key) {
      TextsShowExactly(v, w);
    } else if Listed(EMAIL_FIELDS, key) {
      AddressesShowExactly(g, h, v, w);
    } else {
      RedactionShowsExactly(g, h, v, w, depth + 1);
    }
  }

  lemma TextsShowExactly(v: Val, w: Val)
    ensures (if v.Str? then Shown(TruncateString(v.s)) else Shown("[REDACTED]"))
            == (if w.Str? then Shown(TruncateString(w.s)) else Shown("[REDACTED]"))
            <==> if v.Str? && w.Str? then TruncatedAlike(v.s, w.s) else !v.Str? && !w.Str?
  {
    hide TruncateString, TruncatedAlike;
    if v.Str? {
      TruncatedIsNotRedacted(v.s);
    }
    if w.Str? {
      TruncatedIsNotRedacted(w.s);
    }
    if v.Str? && w.Str? {
      TruncationShowsExactly(v.s, w.s);
    }
  }

  lemma AddressesShowExactly(g: Heap, h: Heap, v: Val, w: Val)
    requires !v.Ref? && !w.Ref?
    ensures RedactEmailField(g, v) == RedactEmailField(h, w)
            <==> if v.Str? && w.Str? then EmailsAlike(v.s, w.s) else v == w
  {
    hide RedactEmail, EmailsAlike;
    if v.Str? && w.Str? {
      RedactedEmailShowsExactly(v.s, w.s);
    }
  }

  lemma TruncatedIsNotRedacted(s: string)
    ensures TruncateString(s) != "[REDACTED]"
  {
    if s != "" {
      assert TruncateString(s)[1] == Print(|s|)[0];
    }
  }

  /**
    * And nothing more is hidden: two unambiguous values have the same redaction exactly if they are equal but for
    * what lies beneath redacted keys, beyond the shown part of truncated strings, and in the hidden part of addresses.
    */
  lemma {:induction false} RedactionShowsExactly(g: Heap, h: Heap, v: Val, w: Val, depth: nat)
    requires Open(g, v, depth) && Open(h, w, depth)
    ensures RedactPII(g, v, depth) == RedactPII(h, w, depth) <==> LookAlike(g, h, v, w, depth)
    decreases Budget(depth), 1
  {
    hide Participants, Print, RedactEmail, RedactField, FieldsLookAlike, OpenField;
    if v.Ref? && w.Ref? {
      var m, n := At(g, v.id), At(h, w.id);
      if m.Array? && n.Array? && |m.items| == |n.items| {
        forall i | 0 <= i < |m.items|
          ensures RedactPII(g, m.items[i], depth + 1) == RedactPII(h, n.items[i], depth + 1)
                  <==> LookAlike(g, h, m.items[i], n.items[i], depth + 1)
        {
          RedactionShowsExactly(g, h, m.items[i], n.items[i], depth + 1);
        }
        SameItemsExactly(g, h, m.items, n.items, depth);
      } else if m.Object? && n.Object? && |m.entries| == |n.entries| {
        forall i | 0 <= i < |m.entries| && m.entries[i].0 == n.entries[i].0
          ensures RedactField(g, m.entries[i].0, m.entries[i].1, depth) == RedactField(h, n.entries[i].0, n.entries[i].1, depth)
                  <==> FieldsLookAlike(g, h, m.entries[i].0, m.entries[i].1, n.entries[i].1, depth)
        {
          FieldsShowExactly(g, h, m.entries[i].0, m.entries[i].1, n.entries[i].1, depth);
        }
        SameEntriesExactly(g, h, m.entries, n.entries, depth);
      }
    }
  }

  lemma SameItemsExactly(g: Heap, h: Heap, xs: seq<Val>, ys: seq<Val>, depth: nat)
    requires depth <= 10 && |xs| == |ys|
    ensures RedactItems(g, xs, depth) == RedactItems(h, ys, depth)
            <==> forall i :: 0 <= i < |xs| ==> RedactPII(g, xs[i], depth + 1) == RedactPII(h, ys[i], depth + 1)
  {
    hide RedactPII, RedactItems;
    var a, b := RedactItems(g, xs, depth), RedactItems(h, ys, depth);
    assert a == b <==> forall i :: 0 <= i < |a| ==> a[i] == b[i];
  }

  lemma SameEntriesExactly(g: Heap, h: Heap, xs: seq<(string, Val)>, ys: seq<(string, Val)>, depth: nat)
    requires depth <= 10 && |xs| == |ys|
    ensures RedactEntries(g, xs, depth) == RedactEntries(h, ys, depth)
            <==> forall i :: 0 <= i < |xs| ==>
                   xs[i].0 == ys[i].0 && RedactField(g, xs[i].0, xs[i].1, depth) == RedactField(h, ys[i].0, ys[i].1, depth)
  {
    hide RedactField, RedactEntries;
    var a, b := RedactEntries(g, xs, depth), RedactEntries(h, ys, depth);
    assert a == b <==> forall i :: 0 <= i < |a| ==> a[i] == b[i];
  }

  // ---------------------------------------------------------------- bounded output

  /** At most `n` levels of arrays and objects. */
  ghost predicate NestedAtMost(out: Out, n: nat) {
    match out
    case Scalar(_) => true
    case OutArray(items) => n > 0 && forall i :: 0 <= i < |items| ==> NestedAtMost(items[i], n - 1)
    case OutObject(entries) => n > 0 && forall i :: 0 <= i < |entries| ==> NestedAtMost(entries[i].1, n - 1)
  }

  /** Output nesting is bounded for every graph: eleven levels, and one more for a participant's address. */
  lemma {:induction false} NestingIsBounded(h: Heap, v: Val, depth: nat)
    ensures NestedAtMost(RedactPII(h, v, depth), if depth > MAX_DEPTH then 0 else Budget(depth) + 1)
    decreases Budget(depth), 1
  {
    hide RedactField, RedactEmail, Print, Participants, At;
    if depth <= MAX_DEPTH && v.Ref? {
      match At(h, v.id)
      case Array(items) =>
        forall i | 0 <= i < |items| ensures NestedAtMost(RedactItems(h, items, depth)[i], Budget(depth)) {
          NestingIsBounded(h, items[i], depth + 1);
        }
      case Object(entries) =>
        forall i | 0 <= i < |entries| ensures NestedAtMost(RedactEntries(h, entries, depth)[i].1, Budget(depth)) {
          FieldNesting(h, entries[i].0, entries[i].1, depth);
        }
    }
  }

  lemma {:induction false} FieldNesting(h: Heap, key: string, value: Val, depth: nat)
    requires depth <= MAX_DEPTH
    ensures NestedAtMost(RedactField(h, key, value, depth), Budget(depth))
    decreases Budget(depth), 0
  {
    hide Listed, RedactPII, RedactEmailField, TruncateString;
    NestingIsBounded(h, value, depth + 1);
    EmailFieldNesting(h, value, Budget(depth));
    assert Budget(depth) >= 1;
  }

  lemma EmailFieldNesting(h: Heap, value: Val, n: nat)
    requires n >= 1
    ensures NestedAtMost(RedactEmailField(h, value), n)
  {
    hide RedactEmail, Print;
  }
}
