/**
 * The string handling at the start of parseDate in index.tsx:
 * `dateStr.replace(/\//g, ' ').split(' ').filter(p => p)` and `Number` applied to
 * each remaining piece.
 */
module DateText {
  import opened Wrappers

  /** `replace(/\//g, ' ')`: every '/' becomes a space, every other character stays. */
  function SlashesToSpaces(s: string): (r: string)
    ensures |r| == |s|
    ensures forall i :: 0 <= i < |s| ==> r[i] == (if s[i] == '/' then ' ' else s[i])
  {
    if s == [] then [] else [if s[0] == '/' then ' ' else s[0]] + SlashesToSpaces(s[1..])
  }

  /** The pieces ps glued back together with sep between neighbours. */
  function Join(ps: seq<string>, sep: char): string
    requires |ps| >= 1
  {
    if |ps| == 1 then ps[0] else ps[0] + [sep] + Join(ps[1..], sep)
  }

  /** How many times c occurs in s. */
  function Occurrences(s: string, c: char): nat {
    if s == [] then 0 else (if s[0] == c then 1 else 0) + Occurrences(s[1..], c)
  }

  /**
   * JavaScript's `s.split(sep)` for a one-character separator: the pieces between
   * separators, empty ones included, so that a string with k separators has k + 1 pieces.
   */
  function Split(s: string, sep: char): (r: seq<string>)
    ensures |r| == Occurrences(s, sep) + 1
  {
    if s == [] then [[]]
    else
      var rest := Split(s[1..], sep);
      if s[0] == sep then [[]] + rest else [[s[0]] + rest[0]] + rest[1..]
  }

  /**
   * Split is undone by Join, and no piece holds the separator: the two facts that
   * pin down what `split` returns.
   */
  lemma {:induction false} SplitJoin(s: string, sep: char)
    ensures Join(Split(s, sep), sep) == s
    ensures forall i :: 0 <= i < |Split(s, sep)| ==> sep !in Split(s, sep)[i]
    decreases |s|
  {
    if s != [] {
      SplitJoin(s[1..], sep);
      var rest := Split(s[1..], sep);
      var r := Split(s, sep);
      if s[0] == sep {
        assert r[1..] == rest;
        assert forall i :: 1 <= i < |r| ==> r[i] == rest[i - 1];
      } else {
        assert r[1..] == rest[1..];
        assert forall i :: 1 <= i < |r| ==> r[i] == rest[i];
        if |rest| > 1 {
          assert Join(rest, sep) == rest[0] + [sep] + Join(rest[1..], sep);
        }
        assert s == [s[0]] + s[1..];
      }
    }
  }

  /** `filter(p => p)`: the pieces that are not the empty string, in their order. */
  function DropEmpty(ps: seq<string>): (r: seq<string>)
    ensures forall i :: 0 <= i < |r| ==> r[i] != []
    ensures forall i :: 0 <= i < |r| ==> r[i] in ps
    ensures forall p :: p != [] ==> multiset(r)[p] == multiset(ps)[p]
  {
    if ps == [] then []
    else
      assert ps == [ps[0]] + ps[1..];
      if ps[0] == [] then DropEmpty(ps[1..]) else [ps[0]] + DropEmpty(ps[1..])
  }

  /** A piece of a split holds no character its text does not hold. */
  lemma {:induction false} SplitKeepsAbsent(s: string, sep: char, c: char)
    requires c !in s
    ensures forall i :: 0 <= i < |Split(s, sep)| ==> c !in Split(s, sep)[i]
    decreases |s|
  {
    if s != [] {
      assert c !in s[1..] by {
        assert forall k :: 0 <= k < |s[1..]| ==> s[1..][k] == s[k + 1];
      }
      SplitKeepsAbsent(s[1..], sep, c);
      var rest := Split(s[1..], sep);
      var r := Split(s, sep);
      if s[0] == sep {
        assert forall i :: 1 <= i < |r| ==> r[i] == rest[i - 1];
      } else {
        assert forall i :: 1 <= i < |r| ==> r[i] == rest[i];
        assert r[0] == [s[0]] + rest[0];
      }
    }
  }

  /**
   * The date components parseDate sees: `parts` at index.tsx:130. Each is a
   * non-empty run of characters other than '/' and ' '.
   */
  function Fields(s: string): (r: seq<string>)
    ensures forall i :: 0 <= i < |r| ==> r[i] != [] && '/' !in r[i] && ' ' !in r[i]
  {
    var t := SlashesToSpaces(s);
    assert '/' !in t by {
      assert forall k :: 0 <= k < |t| ==> t[k] != '/';
    }
    SplitJoin(t, ' ');
    SplitKeepsAbsent(t, ' ', '/');
    DropEmpty(Split(t, ' '))
  }

  predicate IsSeparator(c: char) {
    c == '/' || c == ' '
  }

  lemma {:induction false} SlashesToSpacesAppend(a: string, b: string)
    ensures SlashesToSpaces(a + b) == SlashesToSpaces(a) + SlashesToSpaces(b)
  {
    var l, r := SlashesToSpaces(a + b), SlashesToSpaces(a) + SlashesToSpaces(b);
    assert |l| == |r|;
    forall i | 0 <= i < |l| ensures l[i] == r[i] {
      if i < |a| {
        assert (a + b)[i] == a[i];
      } else {
        assert (a + b)[i] == b[i - |a|];
      }
    }
  }

  /** One step of Split, stated for a text written as its first character and the rest. */
  lemma SplitCons(c: char, t: string, sep: char)
    ensures Split([c] + t, sep) ==
      if c == sep then [[]] + Split(t, sep) else [[c] + Split(t, sep)[0]] + Split(t, sep)[1..]
  {
    assert ([c] + t)[0] == c && ([c] + t)[1..] == t;
  }

  /** Head and tail of a concatenation whose left part is not empty. */
  lemma AppendHeadTail<T>(p: seq<T>, q: seq<T>)
    requires |p| >= 1
    ensures (p + q)[0] == p[0] && (p + q)[1..] == p[1..] + q
  {
  }

  /** SplitAppend's inductive step when the first character is an ordinary one. */
  lemma SplitAppendStepChar(c: char, t: string, b: string, sep: char)
    requires c != sep
    requires Split(t + [sep] + b, sep) == Split(t, sep) + Split(b, sep)
    ensures Split([c] + t + [sep] + b, sep) == Split([c] + t, sep) + Split(b, sep)
  {
    var x := t + [sep] + b;
    var rt, rb := Split(t, sep), Split(b, sep);
    var h := [c] + rt[0];
    assert Split([c] + t + [sep] + b, sep) == Split([c] + x, sep) by {
      assert [c] + t + [sep] + b == [c] + x;
    }
    assert Split([c] + x, sep) == [h] + (rt[1..] + rb) by {
      SplitCons(c, x, sep);
      AppendHeadTail(rt, rb);
    }
    assert Split([c] + t, sep) == [h] + rt[1..] by {
      SplitCons(c, t, sep);
    }
    SeqAssoc([h], rt[1..], rb);
  }

  lemma SeqAssoc<T>(p: seq<T>, q: seq<T>, r: seq<T>)
    ensures p + (q + r) == (p + q) + r
  {
  }

  /** SplitAppend's inductive step when the first character is a separator. */
  lemma SplitAppendStepSep(t: string, b: string, sep: char)
    requires Split(t + [sep] + b, sep) == Split(t, sep) + Split(b, sep)
    ensures Split([sep] + t + [sep] + b, sep) == Split([sep] + t, sep) + Split(b, sep)
  {
    var x := t + [sep] + b;
    assert [sep] + t + [sep] + b == [sep] + x;
    SplitCons(sep, x, sep);
    SplitCons(sep, t, sep);
  }

  lemma {:induction false} SplitAppend(a: string, b: string, sep: char)
    ensures Split(a + [sep] + b, sep) == Split(a, sep) + Split(b, sep)
    decreases |a|
  {
    if a == [] {
      assert a + [sep] + b == [sep] + b;
      SplitCons(sep, b, sep);
    } else {
      assert a == [a[0]] + a[1..];
      SplitAppend(a[1..], b, sep);
      if a[0] == sep {
        SplitAppendStepSep(a[1..], b, sep);
      } else {
        SplitAppendStepChar(a[0], a[1..], b, sep);
      }
    }
  }

  lemma {:induction false} SplitWord(w: string, sep: char)
    requires sep !in w
    ensures Split(w, sep) == [w]
    decreases |w|
  {
    if w != [] {
      assert sep !in w[1..] by {
        forall i | 0 <= i < |w[1..]| ensures w[1..][i] != sep {
          assert w[1..][i] == w[i + 1];
        }
      }
      SplitWord(w[1..], sep);
      assert w == [w[0]] + w[1..];
    }
  }

  lemma {:induction false} DropEmptyAppend(ps: seq<string>, qs: seq<string>)
    ensures DropEmpty(ps + qs) == DropEmpty(ps) + DropEmpty(qs)
    decreases |ps|
  {
    if ps == [] {
      assert ps + qs == qs;
    } else {
      assert (ps + qs)[0] == ps[0];
      assert (ps + qs)[1..] == ps[1..] + qs;
      DropEmptyAppend(ps[1..], qs);
    }
  }

  /**
   * A separator splits the fields: the fields of a, then c, then b are the fields of
   * a followed by those of b, whichever of '/' and ' ' c is. So runs of separators
   * collapse, and '/' and ' ' can stand for each other.
   */
  lemma FieldsAppend(a: string, c: char, b: string)
    requires IsSeparator(c)
    ensures Fields(a + [c] + b) == Fields(a) + Fields(b)
  {
    SlashesToSpacesAppend(a + [c], b);
    SlashesToSpacesAppend(a, [c]);
    assert SlashesToSpaces([c]) == [' '];
    var na, nb := SlashesToSpaces(a), SlashesToSpaces(b);
    SplitAppend(na, nb, ' ');
    DropEmptyAppend(Split(na, ' '), Split(nb, ' '));
  }

  /** A non-empty text without separators is a single field, unchanged. */
  lemma FieldsOfWord(w: string)
    requires w != [] && forall i :: 0 <= i < |w| ==> !IsSeparator(w[i])
    ensures Fields(w) == [w]
  {
    assert SlashesToSpaces(w) == w;
    SplitWord(w, ' ');
    assert DropEmpty([w]) == [w] + DropEmpty([]);
  }

  lemma FieldsOfEmpty()
    ensures Fields([]) == []
  {
    assert Split([], ' ') == [[]];
  }

  predicate IsDigit(c: char) {
    '0' <= c <= '9'
  }

  predicate AllDigits(s: string) {
    forall i :: 0 <= i < |s| ==> IsDigit(s[i])
  }

  /** The value of a string of decimal digits, most significant digit first. */
  function DigitsValue(s: string): nat
    requires AllDigits(s)
  {
    if s == [] then 0 else DigitsValue(s[..|s| - 1]) * 10 + (s[|s| - 1] as int - '0' as int)
  }

  /**
   * `Number(p)` on a field, restricted to plain decimal numerals: a string of digits
   * gives its value (leading zeros allowed, the empty string gives 0 as in
   * JavaScript), anything else is NaN, here None.
   */
  function ParseNumber(p: string): (r: Option<nat>)
    ensures r.Some? <==> AllDigits(p)
  {
    if AllDigits(p) then Some(DigitsValue(p)) else None
  }

  function Pow10(w: nat): nat {
    if w == 0 then 1 else 10 * Pow10(w - 1)
  }

  /** The last w decimal digits of n, with leading zeros: the "DD" and "YYYY" of a date. */
  function Digits(n: nat, w: nat): (r: string)
    ensures |r| == w && AllDigits(r)
  {
    if w == 0 then [] else Digits(n / 10, w - 1) + [('0' as int + n % 10) as char]
  }

  /** Reading back the digits written for n gives n, whenever n fits in w digits. */
  lemma {:induction false} ParseDigits(n: nat, w: nat)
    requires n < Pow10(w)
    ensures ParseNumber(Digits(n, w)) == Some(n)
  {
    if w > 0 {
      ParseDigits(n / 10, w - 1);
      var s := Digits(n, w);
      assert s[..|s| - 1] == Digits(n / 10, w - 1);
    }
  }

  /** A numeral never contains a separator, so it stays one field. */
  lemma DigitsAreNotSeparators(s: string)
    requires AllDigits(s)
    ensures forall i :: 0 <= i < |s| ==> !IsSeparator(s[i])
  {
  }
}
