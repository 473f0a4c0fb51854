/**
 * The percent-encoding step of the share link (section 2.1 of RFC 3986) as
 * JavaScript's `encodeURIComponent` and `decodeURIComponent` perform it on ASCII
 * text: every character outside the unreserved set becomes '%' and two upper-case
 * hexadecimal digits, and decoding turns such a triplet back into its character.
 */
module Percent {
  import opened Wrappers

  predicate IsAscii(c: char) {
    c as int < 128
  }

  predicate IsAsciiText(s: string) {
    forall i :: 0 <= i < |s| ==> IsAscii(s[i])
  }

  /** The characters encodeURIComponent leaves as they are: A-Z a-z 0-9 - _ . ! ~ * ' ( ). */
  predicate IsUnreserved(c: char) {
    ('A' <= c <= 'Z') || ('a' <= c <= 'z') || ('0' <= c <= '9')
    || c == '-' || c == '_' || c == '.' || c == '!' || c == '~' || c == '*' || c == '\'' || c == '(' || c == ')'
  }

  function HexDigit(n: int): (c: char)
    requires 0 <= n < 16
    ensures IsUnreserved(c)
  {
    if n < 10 then ('0' as int + n) as char else ('A' as int + (n - 10)) as char
  }

  /** The value of a hexadecimal digit, in either case; None for any other character. */
  function HexValue(c: char): (r: Option<int>)
    ensures r.Some? ==> 0 <= r.value < 16
  {
    if '0' <= c <= '9' then Some(c as int - '0' as int)
    else if 'A' <= c <= 'F' then Some(c as int - 'A' as int + 10)
    else if 'a' <= c <= 'f' then Some(c as int - 'a' as int + 10)
    else None
  }

  lemma HexValueOfDigit(n: int)
    requires 0 <= n < 16
    ensures HexValue(HexDigit(n)) == Some(n)
  {
  }

  /** One character as encodeURIComponent writes it. */
  function EscapeChar(c: char): (r: string)
    requires IsAscii(c)
  {
    if IsUnreserved(c) then [c] else ['%', HexDigit(c as int / 16), HexDigit(c as int % 16)]
  }

  /**
   * `encodeURIComponent` on ASCII text. What it returns holds only unreserved
   * characters and '%', so in particular no '+', '/' or '=' survive.
   */
  function Escape(s: string): (r: string)
    requires IsAsciiText(s)
    ensures forall i :: 0 <= i < |r| ==> IsUnreserved(r[i]) || r[i] == '%'
    ensures |r| >= |s|
    ensures (forall i :: 0 <= i < |s| ==> IsUnreserved(s[i])) ==> r == s
  {
    if s == [] then [] else EscapeChar(s[0]) + Escape(s[1..])
  }

  /**
   * `decodeURIComponent`: each '%' must start a triplet of '%' and two hexadecimal
   * digits, which stands for the character with that code; any other character
   * stands for itself. A triplet for a code of 128 or more begins a multi-byte UTF-8
   * sequence and is refused here.
   */
  function Unescape(s: string): (r: Option<string>)
    ensures '%' !in s ==> r == Some(s)
    ensures r.Some? ==> |r.value| <= |s|
    decreases |s|
  {
    if s == [] then Some([])
    else if s[0] != '%' then
      assert s == [s[0]] + s[1..];
      match Unescape(s[1..])
      case Some(t) => Some([s[0]] + t)
      case None => None
    else if |s| < 3 then None
    else
      match (HexValue(s[1]), HexValue(s[2]))
      case (Some(hi), Some(lo)) =>
        if hi * 16 + lo >= 128 then None
        else
          (match Unescape(s[3..])
           case Some(t) => Some([(hi * 16 + lo) as char] + t)
           case None => None)
      case _ => None
  }

  lemma UnescapeCons(c: char, rest: string)
    requires IsAscii(c)
    ensures Unescape(EscapeChar(c) + rest) ==
      match Unescape(rest) case Some(t) => Some([c] + t) case None => None
  {
    var e := EscapeChar(c) + rest;
    if IsUnreserved(c) {
      assert e[0] == c && e[1..] == rest;
    } else {
      var n := c as int;
      HexValueOfDigit(n / 16);
      HexValueOfDigit(n % 16);
      assert e[0] == '%' && e[1] == HexDigit(n / 16) && e[2] == HexDigit(n % 16) && e[3..] == rest;
      assert (n / 16) * 16 + n % 16 == n;
    }
  }

  /** encodeURIComponent works character by character. */
  lemma {:induction false} EscapeAppend(a: string, b: string)
    requires IsAsciiText(a) && IsAsciiText(b)
    ensures IsAsciiText(a + b) && Escape(a + b) == Escape(a) + Escape(b)
    decreases |a|
  {
    if a == [] {
      assert a + b == b;
    } else {
      assert (a + b)[0] == a[0];
      assert (a + b)[1..] == a[1..] + b;
      EscapeAppend(a[1..], b);
    }
  }

  /** The three characters of base64 that are not unreserved: '+', '/' and '='. */
  lemma EscapeBase64Specials()
    ensures Escape("+/=") == "%2B%2F%3D"
  {
  }

  /** Round trip: decodeURIComponent undoes encodeURIComponent on ASCII text. */
  lemma {:induction false} UnescapeEscape(s: string)
    requires IsAsciiText(s)
    ensures Unescape(Escape(s)) == Some(s)
    decreases |s|
  {
    if s != [] {
      UnescapeEscape(s[1..]);
      UnescapeCons(s[0], Escape(s[1..]));
      assert s == [s[0]] + s[1..];
    }
  }

  /** At position i of s stands a complete triplet for a code below 128. */
  predicate TripletAt(s: string, i: int)
    requires 0 <= i < |s|
  {
    i + 2 < |s| && HexValue(s[i + 1]).Some? && HexValue(s[i + 2]).Some?
    && HexValue(s[i + 1]).value * 16 + HexValue(s[i + 2]).value < 128
  }

  /** Every '%' of s starts a triplet that Unescape accepts. */
  predicate WellEscaped(s: string) {
    forall i :: 0 <= i < |s| && s[i] == '%' ==> TripletAt(s, i)
  }

  /** Cutting off a prefix whose every '%' starts a good triplet keeps WellEscaped as it is. */
  lemma WellEscapedSuffix(s: string, k: int)
    requires 0 <= k <= |s|
    requires forall j :: 0 <= j < k && s[j] == '%' ==> TripletAt(s, j)
    ensures WellEscaped(s) <==> WellEscaped(s[k..])
  {
    var t := s[k..];
    assert forall i :: 0 <= i < |t| ==> t[i] == s[i + k];
    if WellEscaped(t) {
      forall j | 0 <= j < |s| && s[j] == '%' ensures TripletAt(s, j) {
        if j >= k {
          assert t[j - k] == '%';
          assert TripletAt(t, j - k);
        }
      }
    }
    if WellEscaped(s) {
      forall i | 0 <= i < |t| && t[i] == '%' ensures TripletAt(t, i) {
        assert s[i + k] == '%';
        assert TripletAt(s, i + k);
      }
    }
  }

  /**
   * decodeURIComponent fails exactly on text where some '%' is not followed by two
   * hexadecimal digits, or is followed by two that spell a code of 128 or more.
   */
  lemma {:induction false} UnescapeWellEscaped(s: string)
    ensures Unescape(s).Some? <==> WellEscaped(s)
    decreases |s|
  {
    if s == [] {
    } else if s[0] != '%' {
      UnescapeWellEscaped(s[1..]);
      WellEscapedSuffix(s, 1);
    } else if |s| < 3 {
      assert !TripletAt(s, 0);
    } else if !TripletAt(s, 0) {
    } else {
      assert s[1] != '%' && s[2] != '%';
      UnescapeWellEscaped(s[3..]);
      WellEscapedSuffix(s, 3);
    }
  }
}
