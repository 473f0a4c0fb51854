/**
 * Base64 as the browser's `btoa` and `atob` apply it to the share link: the
 * encoding of section 4 of RFC 4648 with '=' padding, and the "forgiving-base64
 * decode" of the WHATWG Infra standard, which ignores ASCII whitespace, accepts
 * missing padding and discards the unused bits of the last group.
 *
 * Both directions are written in two layers: bytes to 6-bit values (sextets) and
 * back, and sextets to characters of the alphabet and back.
 */
module Base64 {
  import opened Wrappers

  /** A byte, and the six-bit value one base64 character carries. */
  type Byte = x: int | 0 <= x < 256
  type Sextet = x: int | 0 <= x < 64

  /** The base64 alphabet (Table 1 of RFC 4648): A-Z, a-z, 0-9, '+', '/'. */
  function CharOf(x: Sextet): char {
    if x < 26 then ('A' as int + x) as char
    else if x < 52 then ('a' as int + (x - 26)) as char
    else if x < 62 then ('0' as int + (x - 52)) as char
    else if x == 62 then '+'
    else '/'
  }

  predicate IsBase64Char(c: char) {
    ('A' <= c <= 'Z') || ('a' <= c <= 'z') || ('0' <= c <= '9') || c == '+' || c == '/'
  }

  /** The position of a character in the alphabet. */
  function SextetOf(c: char): Sextet
    requires IsBase64Char(c)
  {
    if 'A' <= c <= 'Z' then c as int - 'A' as int
    else if 'a' <= c <= 'z' then c as int - 'a' as int + 26
    else if '0' <= c <= '9' then c as int - '0' as int + 52
    else if c == '+' then 62
    else 63
  }

  /** Every sextet has a character, and that character's position is the sextet. */
  lemma CharOfInAlphabet(x: Sextet)
    ensures IsBase64Char(CharOf(x)) && SextetOf(CharOf(x)) == x
  {
  }

  function CharsOf(xs: seq<Sextet>): (r: string)
    ensures |r| == |xs| && forall i :: 0 <= i < |r| ==> IsBase64Char(r[i])
  {
    seq(|xs|, i requires 0 <= i < |xs| => CharOfInAlphabet(xs[i]); CharOf(xs[i]))
  }

  function SextetsOf(s: string): (r: seq<Sextet>)
    requires forall i :: 0 <= i < |s| ==> IsBase64Char(s[i])
    ensures |r| == |s|
  {
    seq(|s|, i requires 0 <= i < |s| => SextetOf(s[i]))
  }

  lemma SextetsOfCharsOf(xs: seq<Sextet>)
    ensures SextetsOf(CharsOf(xs)) == xs
  {
    var r := SextetsOf(CharsOf(xs));
    forall i | 0 <= i < |xs| ensures r[i] == xs[i] {
      CharOfInAlphabet(xs[i]);
    }
  }

  /** Three bytes (24 bits) cut into four sextets, high bits first. */
  function EncodeTriple(b0: Byte, b1: Byte, b2: Byte): (r: seq<Sextet>)
    ensures |r| == 4
  {
    [b0 / 4, b0 % 4 * 16 + b1 / 16, b1 % 16 * 4 + b2 / 64, b2 % 64]
  }

  /**
   * Bytes as sextets: each group of three bytes gives four sextets; a last group of
   * one or two bytes gives two or three, its missing bits being zero.
   */
  function EncodeSextets(b: seq<Byte>): seq<Sextet> {
    if |b| == 0 then []
    else if |b| == 1 then EncodeTriple(b[0], 0, 0)[..2]
    else if |b| == 2 then EncodeTriple(b[0], b[1], 0)[..3]
    else EncodeTriple(b[0], b[1], b[2]) + EncodeSextets(b[3..])
  }

  /**
   * Four sextets per group of three bytes, and two or three for a last group of one
   * or two bytes, so a group of one sextet never occurs.
   */
  lemma {:induction false} EncodeSextetsLength(b: seq<Byte>)
    ensures |EncodeSextets(b)| == 4 * (|b| / 3) + (if |b| % 3 == 0 then 0 else |b| % 3 + 1)
    ensures |EncodeSextets(b)| % 4 == if |b| % 3 == 0 then 0 else |b| % 3 + 1
    decreases |b|
  {
    var n := |b|;
    if n == 1 || n == 2 {
      assert |EncodeSextets(b)| == n + 1;
    } else if n >= 3 {
      EncodeSextetsLength(b[3..]);
      var k := |EncodeSextets(b[3..])|;
      assert |EncodeSextets(b)| == 4 + k;
      assert (4 + k) % 4 == k % 4;
      assert (n - 3) / 3 == n / 3 - 1;
      assert (n - 3) % 3 == n % 3;
    }
  }

  /** Four sextets back to three bytes. */
  function DecodeQuad(x0: Sextet, x1: Sextet, x2: Sextet, x3: Sextet): seq<Byte> {
    [x0 * 4 + x1 / 16, x1 % 16 * 16 + x2 / 4, x2 % 4 * 64 + x3]
  }

  /**
   * Sextets back to bytes, four at a time; a last group of two or three gives one or
   * two bytes. A last group of one sextet holds no whole byte: atob refuses such
   * input before decoding it.
   */
  function DecodeSextets(xs: seq<Sextet>): seq<Byte> {
    if |xs| <= 1 then []
    else if |xs| == 2 then DecodeQuad(xs[0], xs[1], 0, 0)[..1]
    else if |xs| == 3 then DecodeQuad(xs[0], xs[1], xs[2], 0)[..2]
    else DecodeQuad(xs[0], xs[1], xs[2], xs[3]) + DecodeSextets(xs[4..])
  }

  lemma TripleRoundTrip(b0: Byte, b1: Byte, b2: Byte)
    ensures var q := EncodeTriple(b0, b1, b2); DecodeQuad(q[0], q[1], q[2], q[3]) == [b0, b1, b2]
  {
  }

  lemma DecodeAppend(q: seq<Sextet>, rest: seq<Sextet>)
    requires |q| == 4
    ensures DecodeSextets(q + rest) == DecodeQuad(q[0], q[1], q[2], q[3]) + DecodeSextets(rest)
  {
    assert (q + rest)[4..] == rest;
  }

  lemma SplitOffThree<T>(b: seq<T>)
    requires |b| >= 3
    ensures b == [b[0], b[1], b[2]] + b[3..]
  {
  }

  /** Cutting bytes into sextets loses nothing: decoding them gives the bytes back. */
  lemma {:induction false} DecodeEncodeSextets(b: seq<Byte>)
    ensures DecodeSextets(EncodeSextets(b)) == b
    decreases |b|
  {
    if |b| == 1 {
      TripleRoundTrip(b[0], 0, 0);
    } else if |b| == 2 {
      TripleRoundTrip(b[0], b[1], 0);
    } else if |b| >= 3 {
      DecodeEncodeSextets(b[3..]);
      DecodeAppend(EncodeTriple(b[0], b[1], b[2]), EncodeSextets(b[3..]));
      TripleRoundTrip(b[0], b[1], b[2]);
      SplitOffThree(b);
    }
  }

  /** The characters of the encoding without its '=' padding. */
  function EncodeUnpadded(b: seq<Byte>): string {
    CharsOf(EncodeSextets(b))
  }

  /** '=' characters that fill the last group up to four characters. */
  function Padding(n: nat): string {
    if n % 3 == 1 then "==" else if n % 3 == 2 then "=" else ""
  }

  /** Base64 encoding with padding: what `btoa` returns for the bytes b. */
  function Encode(b: seq<Byte>): (r: string)
    ensures |r| % 4 == 0
    ensures forall i :: 0 <= i < |r| ==> IsBase64Char(r[i]) || r[i] == '='
    ensures |b| > 0 ==> |r| > 0
    ensures |r| == 4 * ((|b| + 2) / 3)
  {
    EncodeSextetsLength(b);
    EncodeUnpadded(b) + Padding(|b|)
  }

  /** Tab, line feed, form feed, carriage return and space. */
  predicate IsAsciiWhitespace(c: char) {
    c == '\t' || c == '\n' || c as int == 12 || c == '\r' || c == ' '
  }

  function RemoveWhitespace(s: string): (r: string)
    ensures forall i :: 0 <= i < |r| ==> !IsAsciiWhitespace(r[i])
    ensures forall c :: !IsAsciiWhitespace(c) ==> multiset(r)[c] == multiset(s)[c]
    ensures |r| <= |s|
  {
    if s == [] then []
    else
      assert s == [s[0]] + s[1..];
      if IsAsciiWhitespace(s[0]) then RemoveWhitespace(s[1..]) else [s[0]] + RemoveWhitespace(s[1..])
  }

  /** Whitespace removal works character by character, so it keeps the order of what it keeps. */
  lemma {:induction false} RemoveWhitespaceAppend(a: string, b: string)
    ensures RemoveWhitespace(a + b) == RemoveWhitespace(a) + RemoveWhitespace(b)
    decreases |a|
  {
    if a == [] {
      assert a + b == b;
    } else {
      assert (a + b)[0] == a[0];
      assert (a + b)[1..] == a[1..] + b;
      RemoveWhitespaceAppend(a[1..], b);
    }
  }

  /** When the length is a multiple of four, one or two trailing '=' are removed. */
  function StripPadding(s: string): (r: string)
    ensures |s| - 2 <= |r| <= |s| && r == s[..|r|]
    ensures forall i :: |r| <= i < |s| ==> s[i] == '='
    ensures |s| % 4 != 0 ==> r == s
    ensures |s| % 4 == 0 && |s| >= 1 && s[|s| - 1] == '=' ==> |r| < |s|
    ensures |s| % 4 == 0 && |s| >= 2 && s[|s| - 2] == '=' && s[|s| - 1] == '=' ==> |r| == |s| - 2
  {
    if |s| % 4 == 0 && |s| >= 2 && s[|s| - 2] == '=' && s[|s| - 1] == '=' then s[..|s| - 2]
    else if |s| % 4 == 0 && |s| >= 1 && s[|s| - 1] == '=' then s[..|s| - 1]
    else s
  }

  /** Whether t, with whitespace and padding gone, is something atob accepts. */
  predicate IsDecodable(t: string) {
    |t| % 4 != 1 && forall i :: 0 <= i < |t| ==> IsBase64Char(t[i])
  }

  /**
   * `atob`'s forgiving-base64 decode: drop ASCII whitespace, drop one or two '='
   * when the length is a multiple of four, then refuse a length of the form 4k + 1
   * and any character outside the alphabet.
   */
  function Decode(s: string): (r: Option<seq<Byte>>)
    ensures r.Some? <==> IsDecodable(StripPadding(RemoveWhitespace(s)))
  {
    var t := StripPadding(RemoveWhitespace(s));
    if IsDecodable(t) then Some(DecodeSextets(SextetsOf(t))) else None
  }

  lemma NoWhitespaceUnchanged(s: string)
    requires forall i :: 0 <= i < |s| ==> !IsAsciiWhitespace(s[i])
    ensures RemoveWhitespace(s) == s
  {
    if s != [] {
      NoWhitespaceUnchanged(s[1..]);
      assert s == [s[0]] + s[1..];
    }
  }

  /** The padding atob strips is exactly the padding btoa adds. */
  lemma StripEncodePadding(b: seq<Byte>)
    ensures StripPadding(Encode(b)) == EncodeUnpadded(b)
  {
    var u := EncodeUnpadded(b);
    var e := Encode(b);
    if |b| % 3 == 1 {
      assert e[..|e| - 2] == u;
    } else if |b| % 3 == 2 {
      assert e[|e| - 2] == u[|u| - 1];
      assert e[..|e| - 1] == u;
    } else {
      assert e == u;
      if |u| >= 1 {
        assert IsBase64Char(u[|u| - 1]);
      }
    }
  }

  /** What atob accepts of btoa's output, after whitespace and padding are gone, is the unpadded encoding. */
  lemma CleanedEncoding(b: seq<Byte>)
    ensures StripPadding(RemoveWhitespace(Encode(b))) == EncodeUnpadded(b)
  {
    NoWhitespaceUnchanged(Encode(b));
    StripEncodePadding(b);
  }

  /** Round trip: atob gives back every byte string btoa encoded. */
  lemma DecodeEncode(b: seq<Byte>)
    ensures Decode(Encode(b)) == Some(b)
  {
    CleanedEncoding(b);
    var xs := EncodeSextets(b);
    EncodeSextetsLength(b);
    assert IsDecodable(CharsOf(xs));
    SextetsOfCharsOf(xs);
    DecodeEncodeSextets(b);
  }

  /** CharsOf spelled out on a given list of sextets. */
  lemma CharsOfSpelled(xs: seq<Sextet>, t: string)
    requires |t| == |xs| && forall i :: 0 <= i < |xs| ==> CharOf(xs[i]) == t[i]
    ensures CharsOf(xs) == t
  {
  }

  /** The test vectors of section 10 of RFC 4648, for "f", "fo" and "foo". */
  lemma EncodeShortVectors()
    ensures Encode([]) == ""
    ensures Encode([102]) == "Zg=="
    ensures Encode([102, 111]) == "Zm8="
    ensures Encode([102, 111, 111]) == "Zm9v"
  {
    assert EncodeSextets([102]) == [25, 32];
    CharsOfSpelled([25, 32], "Zg");
    assert EncodeSextets([102, 111]) == [25, 38, 60];
    CharsOfSpelled([25, 38, 60], "Zm8");
    assert [102, 111, 111][3..] == [];
    assert EncodeSextets([102, 111, 111]) == [25, 38, 61, 47];
    CharsOfSpelled([25, 38, 61, 47], "Zm9v");
  }

  /** The test vector of section 10 of RFC 4648 for "foob". */
  lemma EncodeFoobVector()
    ensures Encode([102, 111, 111, 98]) == "Zm9vYg=="
  {
    var b: seq<Byte> := [102, 111, 111, 98];
    assert b[3..] == [98];
    assert EncodeTriple(98, 0, 0)[..2] == [24, 32];
    assert EncodeSextets(b) == EncodeTriple(102, 111, 111) + EncodeSextets([98]);
    CharsOfSpelled([25, 38, 61, 47] + [24, 32], "Zm9vYg");
    assert Padding(|b|) == "==";
  }

  /** The test vector of section 10 of RFC 4648 for "fooba". */
  lemma EncodeFoobaVector()
    ensures Encode([102, 111, 111, 98, 97]) == "Zm9vYmE="
  {
    assert [102, 111, 111, 98, 97][3..] == [98, 97];
    assert EncodeSextets([102, 111, 111, 98, 97]) == [25, 38, 61, 47] + [24, 38, 4];
    CharsOfSpelled([25, 38, 61, 47] + [24, 38, 4], "Zm9vYmE");
  }

  /** The test vector of section 10 of RFC 4648 for "foobar". */
  lemma EncodeFoobarVector()
    ensures Encode([102, 111, 111, 98, 97, 114]) == "Zm9vYmFy"
  {
    assert [102, 111, 111, 98, 97, 114][3..] == [98, 97, 114];
    assert [98, 97, 114][3..] == [];
    assert EncodeSextets([102, 111, 111, 98, 97, 114]) == [25, 38, 61, 47] + [24, 38, 5, 50];
    CharsOfSpelled([25, 38, 61, 47] + [24, 38, 5, 50], "Zm9vYmFy");
  }
}
