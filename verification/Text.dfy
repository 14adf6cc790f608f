/** Decimal numerals, and splitting and joining strings at a separator. */
module Text {
  import opened Wrappers

  // ---------------------------------------------------------------- decimal numerals

  predicate IsDigit(c: char) {
    '0' <= c <= '9'
  }

  function DigitChar(d: nat): (c: char)
    requires d < 10
    ensures IsDigit(c) && c as int == 48 + d
  {
    '0' + d as char
  }

  function DigitValue(c: char): (d: nat)
    requires IsDigit(c)
    ensures d < 10 && DigitChar(d) == c
  {
    c as int - '0' as int
  }

  function Print(n: nat): (s: string)
    ensures |s| >= 1 && forall i :: 0 <= i < |s| ==> IsDigit(s[i])
  {
    if n < 10 then [DigitChar(n)] else Print(n / 10) + [DigitChar(n % 10)]
  }

  function PrintInt(n: int): string {
    if n < 0 then "-" + Print(-n) else Print(n)
  }

  /** How many digits `s` starts with. */
  function LeadingDigits(s: string): (k: nat)
    ensures k <= |s| && forall i :: 0 <= i < k ==> IsDigit(s[i])
    ensures k < |s| ==> !IsDigit(s[k])
  {
    if s == "" || !IsDigit(s[0]) then 0 else 1 + LeadingDigits(s[1..])
  }

  function Value(digits: string): nat
    requires forall i :: 0 <= i < |digits| ==> IsDigit(digits[i])
  {
    if digits == "" then 0
    else 10 * Value(digits[..|digits| - 1]) + DigitValue(digits[|digits| - 1])
  }

  predicate IsSpace(c: char) {
    c == ' ' || '\t' <= c <= '\r'
  }

  function TrimLeft(s: string): string {
    if s != "" && IsSpace(s[0]) then TrimLeft(s[1..]) else s
  }

  /** `parseInt(s, 10)`: the longest numeral after blanks and a sign; None stands for NaN. */
  function ParseInt(s: string): Option<int> {
    var t := TrimLeft(s);
    var negative := t != "" && t[0] == '-';
    var u := if t != "" && (t[0] == '-' || t[0] == '+') then t[1..] else t;
    var k := LeadingDigits(u);
    var v: int := Value(u[..k]);
    if k == 0 then None else Some(if negative then -v else v)
  }

  lemma {:induction false} ValueOfPrint(n: nat)
    ensures Value(Print(n)) == n
  {
    if n >= 10 {
      ValueOfPrint(n / 10);
      var s := Print(n);
      assert s[..|s| - 1] == Print(n / 10);
    } else {
      assert Print(n)[..0] == "";
    }
  }

  lemma NumeralText()
    ensures PrintInt(0) == "0" && PrintInt(1205) == "1205" && PrintInt(-37) == "-37"
  {
    assert Print(1) == "1" && Print(12) == "12" && Print(120) == "120" && Print(3) == "3";
  }

  /** Blanks before a numeral and anything after it are ignored. */
  lemma ParseText(c: char, rest: string)
    requires c == ' ' || 9 <= c as int <= 13
    requires rest == "" || !IsDigit(rest[0])
    ensures ParseInt([c] + ("7" + rest)) == Some(7)
  {
    LeadingDigitsOfNumeral("7", rest);
    assert ([c] + ("7" + rest))[1..] == "7" + rest;
    assert TrimLeft([c] + ("7" + rest)) == TrimLeft("7" + rest) == "7" + rest;
    assert ("7" + rest)[..1] == "7" && Value("7") == 10 * Value("") + 7;
  }

  lemma {:induction false} LeadingDigitsOfNumeral(s: string, rest: string)
    requires forall i :: 0 <= i < |s| ==> IsDigit(s[i])
    requires rest == "" || !IsDigit(rest[0])
    ensures LeadingDigits(s + rest) == |s|
  {
    if s == "" {
      assert s + rest == rest;
    } else {
      assert (s + rest)[1..] == s[1..] + rest;
      LeadingDigitsOfNumeral(s[1..], rest);
    }
  }

  /** Parsing undoes printing, for negative numbers too. */
  lemma ParsePrint(n: int)
    ensures ParseInt(PrintInt(n)) == Some(n)
  {
    hide Value, LeadingDigits, Print;
    var digits := Print(if n < 0 then -n else n);
    ValueOfPrint(if n < 0 then -n else n);
    LeadingDigitsOfNumeral(digits, "");
    assert digits + "" == digits && digits[..|digits|] == digits;
    assert IsDigit(digits[0]);
  }

  /** Two numerals followed by the same non-digit are equal only if the numbers and the tails are. */
  lemma NumeralsAreDelimited(m: nat, n: nat, p: string, q: string)
    requires p != "" && q != "" && !IsDigit(p[0]) && !IsDigit(q[0])
    ensures Print(m) + p == Print(n) + q <==> m == n && p == q
  {
    if Print(m) + p == Print(n) + q {
      LeadingDigitsOfNumeral(Print(m), p);
      LeadingDigitsOfNumeral(Print(n), q);
      assert Print(m) == (Print(m) + p)[..|Print(m)|] == Print(n);
      ValueOfPrint(m);
      ValueOfPrint(n);
      assert p == (Print(m) + p)[|Print(m)|..];
      assert q == (Print(n) + q)[|Print(n)|..];
    }
  }

  // ---------------------------------------------------------------- split and join

  lemma CancelPrefix(p: string, x: string, y: string)
    ensures p + x == p + y <==> x == y
  {
    assert (p + x)[|p|..] == x && (p + y)[|p|..] == y;
  }

  /** Strings split at their first separator. */
  lemma SeparatorSplits(sep: char, a: string, x: string, b: string, y: string)
    requires sep !in a && sep !in b
    ensures a + ([sep] + x) == b + ([sep] + y) <==> a == b && x == y
  {
    var s, t := a + ([sep] + x), b + ([sep] + y);
    assert s[|a|] == sep && t[|b|] == sep;
    assert s[..|a|] == a && s[|a| + 1..] == x && t[..|b|] == b && t[|b| + 1..] == y;
    if s == t {
      assert |a| <= |b| by {
        assert forall i :: 0 <= i < |a| ==> s[i] == a[i];
      }
      assert |b| <= |a| by {
        assert forall i :: 0 <= i < |b| ==> t[i] == b[i];
      }
    }
  }

  function Split(s: string, sep: char): (parts: seq<string>)
    ensures |parts| >= 1
  {
    if s == "" then [""]
    else if s[0] == sep then [""] + Split(s[1..], sep)
    else var rest := Split(s[1..], sep); [[s[0]] + rest[0]] + rest[1..]
  }

  function Join(parts: seq<string>, sep: char): string
    requires |parts| >= 1
  {
    if |parts| == 1 then parts[0] else parts[0] + [sep] + Join(parts[1..], sep)
  }

  lemma {:induction false} SplitAtSeparator(a: string, b: string, sep: char)
    ensures Split(a + [sep] + b, sep) == Split(a, sep) + Split(b, sep)
  {
    if a == "" {
      assert a + [sep] + b == [sep] + b;
    } else {
      assert (a + [sep] + b)[1..] == a[1..] + [sep] + b;
      SplitAtSeparator(a[1..], b, sep);
    }
  }

  lemma {:induction false} SplitIsSingle(s: string, sep: char)
    ensures |Split(s, sep)| == 1 <==> sep !in s
    ensures sep !in s ==> Split(s, sep) == [s]
  {
    if s != "" {
      SplitIsSingle(s[1..], sep);
      assert sep in s <==> s[0] == sep || sep in s[1..];
      assert [s[0]] + s[1..] == s;
    }
  }

  /** Splitting a join gives more parts than were joined, unless no part contains the separator. */
  lemma {:induction false} SplitJoin(parts: seq<string>, sep: char)
    requires |parts| >= 1
    ensures |Split(Join(parts, sep), sep)| >= |parts|
    ensures |Split(Join(parts, sep), sep)| == |parts| <==> forall p :: p in parts ==> sep !in p
    ensures (forall p :: p in parts ==> sep !in p) ==> Split(Join(parts, sep), sep) == parts
  {
    SplitIsSingle(parts[0], sep);
    if |parts| > 1 {
      SplitAtSeparator(parts[0], Join(parts[1..], sep), sep);
      SplitJoin(parts[1..], sep);
      assert forall p :: p in parts <==> p == parts[0] || p in parts[1..];
    }
  }

  lemma JoinIsInjective(a: seq<string>, b: seq<string>, sep: char)
    requires a != [] && b != [] && forall p :: p in a || p in b ==> sep !in p
    ensures Join(a, sep) == Join(b, sep) <==> a == b
  {
    SplitJoin(a, sep);
    SplitJoin(b, sep);
  }
}
