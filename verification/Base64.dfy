/** Base64 as in section 4 of RFC 4648, with the tolerant decoder of Node's Buffer. */
module Base64 {
  import opened Wrappers

  type Byte = b: int | 0 <= b < 256

  type Bytes = seq<Byte>

  type Sextet = x: int | 0 <= x < 64

  function CharOf(x: Sextet): char {
    if x < 26 then 'A' + x as char
    else if x < 52 then 'a' + (x - 26) as char
    else if x < 62 then '0' + (x - 52) as char
    else if x == 62 then '+' else '/'
  }

  /** The decoder also reads the URL-safe alphabet of section 5. */
  function SextetOf(c: char): Option<Sextet> {
    if 'A' <= c <= 'Z' then Some(c as int - 'A' as int)
    else if 'a' <= c <= 'z' then Some(c as int - 'a' as int + 26)
    else if '0' <= c <= '9' then Some(c as int - '0' as int + 52)
    else if c == '+' || c == '-' then Some(62)
    else if c == '/' || c == '_' then Some(63)
    else None
  }

  /** Three bytes make four sextets; one or two left over make two or three. */
  function Pack(bs: Bytes): seq<Sextet> {
    if |bs| == 0 then []
    else if |bs| == 1 then [bs[0] / 4, bs[0] % 4 * 16]
    else if |bs| == 2 then [bs[0] / 4, bs[0] % 4 * 16 + bs[1] / 16, bs[1] % 16 * 4]
    else
      [bs[0] / 4, bs[0] % 4 * 16 + bs[1] / 16, bs[1] % 16 * 4 + bs[2] / 64, bs[2] % 64] + Pack(bs[3..])
  }

  function Chars(xs: seq<Sextet>): (s: string)
    ensures |s| == |xs| && forall i :: 0 <= i < |xs| ==> s[i] == CharOf(xs[i])
  {
    if xs == [] then "" else [CharOf(xs[0])] + Chars(xs[1..])
  }

  function Padding(n: nat): string {
    if n % 3 == 0 then "" else if n % 3 == 1 then "==" else "="
  }

  function Encode(bs: Bytes): string {
    Chars(Pack(bs)) + Padding(|bs|)
  }

  /** Characters outside the alphabet, padding included, are skipped. */
  function Sextets(s: string): seq<Sextet> {
    if s == "" then []
    else if SextetOf(s[0]).Some? then [SextetOf(s[0]).value] + Sextets(s[1..])
    else Sextets(s[1..])
  }

  function FirstByte(x0: Sextet, x1: Sextet): Byte {
    x0 as int * 4 + x1 as int / 16
  }

  function SecondByte(x1: Sextet, x2: Sextet): Byte {
    x1 as int % 16 * 16 + x2 as int / 4
  }

  function ThirdByte(x2: Sextet, x3: Sextet): Byte {
    x2 as int % 4 * 64 + x3 as int
  }

  function Unpack(xs: seq<Sextet>): Bytes {
    if |xs| < 2 then []
    else if |xs| == 2 then [FirstByte(xs[0], xs[1])]
    else if |xs| == 3 then [FirstByte(xs[0], xs[1]), SecondByte(xs[1], xs[2])]
    else [FirstByte(xs[0], xs[1]), SecondByte(xs[1], xs[2]), ThirdByte(xs[2], xs[3])] + Unpack(xs[4..])
  }

  function Decode(s: string): Bytes {
    Unpack(Sextets(s))
  }

  lemma SextetOfChar(x: Sextet)
    ensures SextetOf(CharOf(x)) == Some(x)
  {
  }

  lemma {:induction false} SextetsOfChars(xs: seq<Sextet>, rest: string)
    ensures Sextets(Chars(xs) + rest) == xs + Sextets(rest)
  {
    hide CharOf, SextetOf;
    if xs == [] {
      assert Chars(xs) + rest == rest;
    } else {
      var s := Chars(xs) + rest;
      SextetOfChar(xs[0]);
      assert s[1..] == Chars(xs[1..]) + rest;
      SextetsOfChars(xs[1..], rest);
      assert [xs[0]] + xs[1..] == xs;
    }
  }

  lemma PaddingHasNoSextets(n: nat)
    ensures Sextets(Padding(n)) == []
  {
    assert "="[1..] == "" && "=="[1..] == "=";
  }

  /** Three bytes survive the trip through four sextets. */
  lemma Regroup(b0: Byte, b1: Byte, b2: Byte)
    ensures FirstByte(b0 / 4, b0 % 4 * 16 + b1 / 16) == b0
    ensures SecondByte(b0 % 4 * 16 + b1 / 16, b1 % 16 * 4 + b2 / 64) == b1
    ensures ThirdByte(b1 % 16 * 4 + b2 / 64, b2 % 64) == b2
  {
  }

  lemma {:induction false} UnpackPack(bs: Bytes)
    ensures Unpack(Pack(bs)) == bs
  {
    if |bs| == 1 {
      Regroup(bs[0], 0, 0);
    } else if |bs| == 2 {
      Regroup(bs[0], bs[1], 0);
    } else if |bs| >= 3 {
      Regroup(bs[0], bs[1], bs[2]);
      UnpackPack(bs[3..]);
      assert Pack(bs)[4..] == Pack(bs[3..]);
      assert [bs[0], bs[1], bs[2]] + bs[3..] == bs;
    }
  }

  /** Decoding undoes encoding, for every byte string. */
  lemma DecodeEncode(bs: Bytes)
    ensures Decode(Encode(bs)) == bs
  {
    SextetsOfChars(Pack(bs), Padding(|bs|));
    PaddingHasNoSextets(|bs|);
    assert Pack(bs) + [] == Pack(bs);
    UnpackPack(bs);
  }

  /** Encoded text holds no separator of the stored token format. */
  lemma EncodeIsColonFree(bs: Bytes)
    ensures ':' !in Encode(bs)
  {
    var xs := Pack(bs);
    assert forall i :: 0 <= i < |xs| ==> CharOf(xs[i]) != ':';
    assert ':' !in Padding(|bs|);
  }

  /** The alphabet of section 4 of RFC 4648: A-Z, a-z, 0-9, plus and slash. */
  lemma AlphabetText(x: Sextet)
    ensures CharOf(x) as int ==
            if x < 26 then 65 + x else if x < 52 then 71 + x else if x < 62 then x - 4 else if x == 62 then 43 else 47
  {
  }

  /** The test vectors of section 10 of RFC 4648: the bytes of f, fo, foo and foobar. */
  lemma VectorsText()
    ensures Encode([]) == "" && Encode([102]) == "Zg==" && Encode([102, 111]) == "Zm8=" && Encode([102, 111, 111]) == "Zm9v"
    ensures Encode([102, 111, 111, 98, 97, 114]) == "Zm9vYmFy"
  {
    hide Chars, CharOf;
    CharTexts();
    assert Chars([]) == "" && Chars([25, 32]) == "Zg" && Chars([25, 38, 60]) == "Zm8" && Chars([25, 38, 61, 47]) == "Zm9v";
    FoobarSextets();
    assert Chars([25, 38, 61, 47, 24, 38, 5, 50]) == "Zm9vYmFy";
    assert Pack([102]) == [25, 32] && Pack([102, 111]) == [25, 38, 60] && Pack([102, 111, 111]) == [25, 38, 61, 47];
    hide Pack;
  }

  lemma CharTexts()
    ensures CharOf(25) == 'Z' && CharOf(32) == 'g' && CharOf(38) == 'm' && CharOf(60) == '8' && CharOf(61) == '9'
    ensures CharOf(47) == 'v' && CharOf(24) == 'Y' && CharOf(5) == 'F' && CharOf(50) == 'y'
  {
  }

  lemma FoobarSextets()
    ensures Pack([102, 111, 111, 98, 97, 114]) == [25, 38, 61, 47, 24, 38, 5, 50]
  {
    var bar: Bytes := [98, 97, 114];
    assert [102, 111, 111, 98, 97, 114][3..] == bar && bar[3..] == [];
    assert Pack(bar) == [24, 38, 5, 50];
  }
}
