/** String vocabulary shared by the model: decimal rendering of integers
    (template literals and `String(n)`), `Array.prototype.join`, splitting at
    a separator, and ASCII case mapping. A JavaScript string is a Dafny
    `string` with one `char` per Unicode scalar value; README.md, under
    "Left out", says where this differs from JavaScript's UTF-16 code
    units. */
module Strings {

  predicate IsDigit(c: char) {
    '0' <= c <= '9'
  }

  /** The character for a decimal digit. */
  function DigitChar(d: nat): (c: char)
    requires d < 10
    ensures IsDigit(c) && c as int - '0' as int == d
  {
    (d + '0' as int) as char
  }

  /** Decimal text of a non-negative integer, as `${n}` renders it: only
      digits, and no leading zero except for zero itself. */
  function NatToString(n: nat): (r: string)
    ensures |r| >= 1
    ensures forall i :: 0 <= i < |r| ==> IsDigit(r[i])
    ensures r[0] == '0' ==> n == 0 && |r| == 1
  {
    if n < 10 then [DigitChar(n)] else NatToString(n / 10) + [DigitChar(n % 10)]
  }

  /** The value of a string of decimal digits. */
  function DecimalValue(s: string): nat
    requires forall i :: 0 <= i < |s| ==> IsDigit(s[i])
  {
    if s == [] then 0
    else
      assert IsDigit(s[|s| - 1]);
      DecimalValue(s[..|s| - 1]) * 10 + (s[|s| - 1] as int - '0' as int)
  }

  /** Reading back the decimal text gives the number: the rendering is injective. */
  lemma {:induction false} DecimalRoundTrip(n: nat)
    ensures DecimalValue(NatToString(n)) == n
  {
    if n >= 10 {
      var r := NatToString(n);
      assert r[..|r| - 1] == NatToString(n / 10);
      DecimalRoundTrip(n / 10);
    }
  }

  /** `parts.join(sep)`. */
  function Join(parts: seq<string>, sep: string): string {
    if |parts| == 0 then ""
    else if |parts| == 1 then parts[0]
    else Join(parts[..|parts| - 1], sep) + sep + parts[|parts| - 1]
  }

  /** `s.split(c)` for a one-character separator: the pieces between the
      occurrences of `c`. */
  function Split(s: string, c: char): (pieces: seq<string>)
    ensures |pieces| >= 1
  {
    if s == [] then [""]
    else
      var pre := Split(s[..|s| - 1], c);
      if s[|s| - 1] == c then pre + [""]
      else pre[..|pre| - 1] + [pre[|pre| - 1] + [s[|s| - 1]]]
  }

  /** Text free of the separator extends the last piece. */
  lemma {:induction false} SplitAppendFree(a: string, b: string, c: char)
    requires c !in b
    ensures var sa := Split(a, c);
            Split(a + b, c) == sa[..|sa| - 1] + [sa[|sa| - 1] + b]
  {
    if b != [] {
      var b', z := b[..|b| - 1], b[|b| - 1];
      assert b == b' + [z];
      assert z != c;
      assert a + b == (a + b') + [z];
      assert (a + b)[..|a + b| - 1] == a + b';
      SplitAppendFree(a, b', c);
      var sa, pre := Split(a, c), Split(a + b', c);
      assert pre[..|pre| - 1] == sa[..|sa| - 1];
      assert pre[|pre| - 1] + [z] == sa[|sa| - 1] + b;
    } else {
      var sa := Split(a, c);
      assert a + b == a;
      assert sa[|sa| - 1] + b == sa[|sa| - 1];
      assert sa == sa[..|sa| - 1] + [sa[|sa| - 1]];
    }
  }

  /** Splitting a joined list at its one-character separator gives the list
      back, provided no part contains the separator. */
  lemma {:induction false} SplitJoin(parts: seq<string>, c: char)
    requires |parts| >= 1
    requires forall i :: 0 <= i < |parts| ==> c !in parts[i]
    ensures Split(Join(parts, [c]), c) == parts
  {
    if |parts| == 1 {
      SplitFree(parts[0], c);
    } else {
      var init, last := parts[..|parts| - 1], parts[|parts| - 1];
      SplitJoin(init, c);
      SplitJoinStep(init, last, c);
      assert parts == init + [last];
    }
  }

  /** Joining one more separator-free part adds it as one more piece. */
  lemma SplitJoinStep(init: seq<string>, last: string, c: char)
    requires |init| >= 1
    requires c !in last
    requires Split(Join(init, [c]), c) == init
    ensures Split(Join(init + [last], [c]), c) == init + [last]
  {
    var j := Join(init, [c]);
    SplitAfterSeparator(j, c);
    SplitAppendFree(j + [c], last, c);
    var sj := init + [""];
    assert sj[..|sj| - 1] == init;
    assert sj[|sj| - 1] + last == last;
    assert (init + [last])[..|init|] == init;
    assert j + [c] + last == Join(init + [last], [c]);
  }

  /** Text free of the separator is one piece. */
  lemma SplitFree(s: string, c: char)
    requires c !in s
    ensures Split(s, c) == [s]
  {
    SplitAppendFree("", s, c);
    assert "" + s == s;
  }

  /** A trailing separator opens an empty last piece. */
  lemma SplitAfterSeparator(s: string, c: char)
    ensures Split(s + [c], c) == Split(s, c) + [""]
  {
    assert (s + [c])[..|s + [c]| - 1] == s;
  }

  /** ASCII case folding of one character; every other character is kept. */
  function AsciiLower(c: char): char {
    if 'A' <= c <= 'Z' then (c as int + 32) as char else c
  }

  /** ASCII lower-casing of a string. */
  function AsciiLowerString(s: string): (r: string)
    ensures |r| == |s|
    ensures forall i :: 0 <= i < |s| ==> r[i] == AsciiLower(s[i])
  {
    if s == [] then [] else [AsciiLower(s[0])] + AsciiLowerString(s[1..])
  }
}
