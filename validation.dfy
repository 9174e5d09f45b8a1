/** Search-box input: `sanitizeInput`, which cleans a query step by step, and
    `isValidInput`, which accepts or rejects one. The regular expressions of
    the source are written out as functions on strings. */
module Validation {
  import opened Strings
  import Seqs

  const MaxLength: nat := 100

  /** `[\x00-\x1F\x7F]`: a C0 control character or DEL. */
  predicate IsControl(c: char) {
    c as int <= 0x1F || c as int == 0x7F
  }

  /** `\s`, and what `String.prototype.trim` strips: the WhiteSpace and
      LineTerminator code points of sections 12.2 and 12.3 of ECMA-262. */
  predicate IsWhitespace(c: char) {
    var n := c as int;
    (0x09 <= n <= 0x0D) || n == 0x20 || n == 0xA0 || n == 0x1680
    || (0x2000 <= n <= 0x200A) || n == 0x2028 || n == 0x2029 || n == 0x202F
    || n == 0x205F || n == 0x3000 || n == 0xFEFF
  }

  /** `\w` (also under the `i` flag without `u`): ASCII letters, digits and `_`. */
  predicate IsWordChar(c: char) {
    ('a' <= c <= 'z') || ('A' <= c <= 'Z') || ('0' <= c <= '9') || c == '_'
  }

  /** `input.slice(0, 100)`. */
  function Take(s: string): (r: string)
    ensures |r| <= MaxLength && |r| <= |s|
    ensures r == s[..|r|]
    ensures |s| <= MaxLength ==> r == s
    ensures |s| > MaxLength ==> r == s[..MaxLength]
  {
    if |s| <= MaxLength then s else s[..MaxLength]
  }

  /** `replace(/[\x00-\x1F\x7F]/g, '')`. */
  function RemoveControl(s: string): (r: string)
    ensures |r| <= |s|
    ensures forall i :: 0 <= i < |r| ==> !IsControl(r[i])
    ensures forall c :: c in r ==> c in s
  {
    if s == [] then []
    else if IsControl(s[0]) then RemoveControl(s[1..])
    else [s[0]] + RemoveControl(s[1..])
  }

  /** Control removal works character by character, so every other
      character is kept, in order (see RemoveControlChar). */
  lemma {:induction false} RemoveControlAppend(a: string, b: string)
    ensures RemoveControl(a + b) == RemoveControl(a) + RemoveControl(b)
  {
    if a == [] {
      assert a + b == b;
    } else {
      assert (a + b)[0] == a[0];
      assert (a + b)[1..] == a[1..] + b;
      RemoveControlAppend(a[1..], b);
    }
  }

  /** One character is dropped exactly when it is a control character. */
  lemma RemoveControlChar(c: char)
    ensures RemoveControl([c]) == if IsControl(c) then [] else [c]
  {
    assert [c][1..] == [];
  }

  /** No `<` has a `>` anywhere after it: the string holds no `<…>` tag. */
  predicate NoTag(s: string) {
    forall i, j :: 0 <= i < j < |s| && s[i] == '<' ==> s[j] != '>'
  }

  /** A `<` at the head of a tag-free string has no `>` after it. */
  lemma NoTagHead(s: string)
    requires s != [] && NoTag(s) && s[0] == '<'
    ensures '>' !in s[1..]
  {
    forall k | 0 <= k < |s| - 1
      ensures s[1..][k] != '>'
    {
      assert s[1..][k] == s[k + 1];
    }
  }

  /** `replace(/<[^>]*>/g, '')`: from each `<` that has a `>` somewhere after
      it, everything up to and including the first such `>` goes; a `<`
      without a later `>` stays. */
  function StripTags(s: string): (r: string)
    ensures |r| <= |s|
    ensures forall c :: c in r ==> c in s
    ensures NoTag(r)
    decreases |s|
  {
    if s == [] then []
    else if s[0] == '<' && '>' in s[1..] then
      StripTags(s[Seqs.FirstIndex(s[1..], '>') + 2..])
    else
      var rest := StripTags(s[1..]);
      assert s[0] == '<' ==> '>' !in rest;
      [s[0]] + rest
  }

  /** A tag behind text without `<` goes, from its `<` up to the first `>`
      after it, and the text in front of it stays. */
  lemma {:induction false} StripTagsSpan(u: string, t: string, v: string)
    requires '<' !in u && '>' !in t
    ensures StripTags(u + "<" + t + ">" + v) == u + StripTags(v)
    decreases |u|
  {
    var s := u + "<" + t + ">" + v;
    if u == [] {
      assert s == "<" + (t + ">" + v);
      assert s[1..] == t + ">" + v;
      assert s[1..][|t|] == '>' && s[1..][..|t|] == t;
      Seqs.FirstIndexAt(s[1..], |t|);
      assert s[|t| + 2..] == v;
    } else {
      assert s[0] == u[0];
      assert s[1..] == u[1..] + "<" + t + ">" + v;
      StripTagsSpan(u[1..], t, v);
      assert u == [u[0]] + u[1..];
    }
  }

  /** A pattern of the sanitizer's block list: a literal matched
      case-insensitively, or the event-handler pattern `/on\w+\s*=/gi`. */
  datatype Pattern = Literal(text: string) | EventHandler

  /** Length of the longest prefix of `s` whose characters satisfy `IsWordChar`
      (respectively `IsWhitespace`): how far a greedy `\w+` or `\s*` reaches. */
  function WordRun(s: string): (n: nat)
    ensures n <= |s|
    ensures forall i :: 0 <= i < n ==> IsWordChar(s[i])
    ensures n < |s| ==> !IsWordChar(s[n])
  {
    if s == [] || !IsWordChar(s[0]) then 0 else 1 + WordRun(s[1..])
  }

  function SpaceRun(s: string): (n: nat)
    ensures n <= |s|
    ensures forall i :: 0 <= i < n ==> IsWhitespace(s[i])
    ensures n < |s| ==> !IsWhitespace(s[n])
  {
    if s == [] || !IsWhitespace(s[0]) then 0 else 1 + SpaceRun(s[1..])
  }

  /** `p` occurs at the start of `s`, letters compared without case. The `i`
      flag without `u` folds only ASCII letters for an ASCII pattern. */
  predicate StartsWithFolded(s: string, p: string) {
    |p| <= |s| && forall i :: 0 <= i < |p| ==> AsciiLower(s[i]) == AsciiLower(p[i])
  }

  /** Length of the match of `p` at the start of `s`, 0 when there is none
      (no pattern matches the empty string). For the event-handler pattern
      the greedy runs cannot give back characters usefully: a shorter `\w+`
      is followed by a word character and a shorter `\s*` by a space, and
      neither is `=`. */
  function MatchLength(s: string, p: Pattern): (n: nat)
    requires p.Literal? ==> p.text != []
    ensures n <= |s|
    ensures p.Literal? ==> (n > 0 <==> StartsWithFolded(s, p.text)) && (n > 0 ==> n == |p.text|)
    ensures p.EventHandler? && n > 0 ==> exists w: nat, k: nat :: HandlerAt(s, w, k) && n == 2 + w + k + 1
  {
    match p
    case Literal(text) => if StartsWithFolded(s, text) then |text| else 0
    case EventHandler =>
      if |s| >= 2 && AsciiLower(s[0]) == 'o' && AsciiLower(s[1]) == 'n' then
        var w := WordRun(s[2..]);
        var k := SpaceRun(s[2 + w..]);
        if w >= 1 && 2 + w + k < |s| && s[2 + w + k] == '=' then
          assert HandlerAt(s, w, k);
          2 + w + k + 1
        else 0
      else 0
  }

  /** `/on\w+\s*=/` at the start of `s`: `on` in either case, a run of `w`
      word characters, a run of `k` white-space characters, then `=`. */
  predicate HandlerAt(s: string, w: nat, k: nat) {
    && 2 + w + k < |s|
    && AsciiLower(s[0]) == 'o' && AsciiLower(s[1]) == 'n'
    && 1 <= w
    && (forall i :: 2 <= i < 2 + w ==> IsWordChar(s[i]))
    && (forall i :: 2 + w <= i < 2 + w + k ==> IsWhitespace(s[i]))
    && s[2 + w + k] == '='
  }

  /** Text of the shape `on\w+\s*=` is matched, all of it: the greedy runs
      stop where the word characters and the white space end, because `=` is
      neither and no word character is white space. */
  lemma EventHandlerMatches(s: string, w: nat, k: nat)
    requires HandlerAt(s, w, k)
    ensures MatchLength(s, EventHandler) == 2 + w + k + 1
  {
    var t := s[2..];
    assert forall i :: 0 <= i < w ==> IsWordChar(t[i]);
    assert !IsWordChar(t[w]) by {
      if k == 0 { assert t[w] == '='; } else { assert IsWhitespace(s[2 + w]); }
    }
    WordRunExact(t, w);
    var u := s[2 + w..];
    assert forall i :: 0 <= i < k ==> IsWhitespace(u[i]);
    assert u[k] == '=';
    SpaceRunExact(u, k);
  }

  lemma {:induction false} WordRunExact(s: string, w: nat)
    requires w < |s| && !IsWordChar(s[w])
    requires forall i :: 0 <= i < w ==> IsWordChar(s[i])
    ensures WordRun(s) == w
    decreases w
  {
    if w > 0 {
      WordRunExact(s[1..], w - 1);
    }
  }

  lemma {:induction false} SpaceRunExact(s: string, k: nat)
    requires k < |s| && !IsWhitespace(s[k])
    requires forall i :: 0 <= i < k ==> IsWhitespace(s[i])
    ensures SpaceRun(s) == k
    decreases k
  {
    if k > 0 {
      SpaceRunExact(s[1..], k - 1);
    }
  }

  /** `s.replace(pattern, '')` with the `g` flag: scan from the left, drop
      each match, and resume after it. */
  function RemovePattern(s: string, p: Pattern): (r: string)
    requires p.Literal? ==> p.text != []
    ensures |r| <= |s|
    decreases |s|
  {
    if s == [] then []
    else
      var n := MatchLength(s, p);
      if n > 0 then RemovePattern(s[n..], p)
      else [s[0]] + RemovePattern(s[1..], p)
  }

  /** A match behind text where no match starts goes, exactly, and the text
      in front of it stays; the scan resumes after the match. */
  lemma RemoveMatchAfterPrefix(u: string, w: string, p: Pattern)
    requires p.Literal? ==> p.text != []
    requires forall i :: 0 <= i < |u| ==> MatchLength((u + w)[i..], p) == 0
    requires MatchLength(w, p) > 0
    ensures RemovePattern(u + w, p) == u + RemovePattern(w[MatchLength(w, p)..], p)
  {
    RemovePatternAfterPrefix(u, w, p);
  }

  /** Removal only drops characters. */
  lemma {:induction false} RemovePatternChars(s: string, p: Pattern)
    requires p.Literal? ==> p.text != []
    ensures forall c :: c in RemovePattern(s, p) ==> c in s
    decreases |s|
  {
    if s != [] {
      var n := MatchLength(s, p);
      if n > 0 {
        RemovePatternChars(s[n..], p);
      } else {
        RemovePatternChars(s[1..], p);
      }
    }
  }

  /** Removal never creates a tag: a `<` that survives has only surviving
      characters after it. */
  lemma {:induction false} RemovePatternKeepsNoTag(s: string, p: Pattern)
    requires p.Literal? ==> p.text != []
    requires NoTag(s)
    ensures NoTag(RemovePattern(s, p))
    decreases |s|
  {
    if s != [] {
      var n := MatchLength(s, p);
      if n > 0 {
        NoTagSuffix(s, n);
        RemovePatternKeepsNoTag(s[n..], p);
      } else {
        NoTagSuffix(s, 1);
        RemovePatternKeepsNoTag(s[1..], p);
        var rest := RemovePattern(s[1..], p);
        if s[0] == '<' {
          NoTagHead(s);
          RemovePatternChars(s[1..], p);
        }
        NoTagCons(s[0], rest);
      }
    }
  }

  lemma NoTagSuffix(s: string, n: nat)
    requires NoTag(s) && n <= |s|
    ensures NoTag(s[n..])
  {
    forall i, j | 0 <= i < j < |s[n..]| && s[n..][i] == '<'
      ensures s[n..][j] != '>'
    {
      assert s[n..][i] == s[n + i] && s[n..][j] == s[n + j];
    }
  }

  lemma NoTagCons(c: char, rest: string)
    requires NoTag(rest)
    requires c == '<' ==> '>' !in rest
    ensures NoTag([c] + rest)
  {
    var t := [c] + rest;
    forall i, j | 0 <= i < j < |t| && t[i] == '<'
      ensures t[j] != '>'
    {
      assert t[j] == rest[j - 1];
      if i > 0 {
        assert t[i] == rest[i - 1];
      }
    }
  }

  /** The sanitizer's block list, in the order it is applied. */
  const SanitizerPatterns: seq<Pattern> := [
    Literal("javascript:"), Literal("data:"), Literal("vbscript:"), EventHandler,
    Literal("<script"), Literal("</script>"), Literal("<iframe"), Literal("<object"),
    Literal("<embed")]

  predicate WellFormed(ps: seq<Pattern>) {
    forall k :: 0 <= k < |ps| ==> (ps[k].Literal? ==> ps[k].text != [])
  }

  /** The patterns of `ps` removed one after the other, each over the whole
      result of the previous one. */
  function RemoveAll(s: string, ps: seq<Pattern>): (r: string)
    requires WellFormed(ps)
    ensures |r| <= |s|
    ensures forall c :: c in r ==> c in s
    ensures NoTag(s) ==> NoTag(r)
  {
    if ps == [] then s
    else
      var before := RemoveAll(s, ps[..|ps| - 1]);
      RemovePatternChars(before, ps[|ps| - 1]);
      if NoTag(before) then
        RemovePatternKeepsNoTag(before, ps[|ps| - 1]);
        RemovePattern(before, ps[|ps| - 1])
      else RemovePattern(before, ps[|ps| - 1])
  }

  /** `replace(/\s+/g, ' ')`: every run of white space becomes one space. */
  function CollapseSpaces(s: string): (r: string)
    ensures |r| <= |s|
    ensures |r| == 0 <==> |s| == 0
    ensures |r| > 0 ==> (IsWhitespace(r[0]) <==> IsWhitespace(s[0]))
    ensures forall i :: 0 <= i < |r| && IsWhitespace(r[i]) ==> r[i] == ' '
    ensures forall i :: 0 <= i < |r| - 1 ==> !(IsWhitespace(r[i]) && IsWhitespace(r[i + 1]))
    ensures forall c :: c in r ==> c in s || c == ' '
    decreases |s|
  {
    if s == [] then []
    else if IsWhitespace(s[0]) then
      var n := SpaceRun(s);
      [' '] + CollapseSpaces(s[n..])
    else
      [s[0]] + CollapseSpaces(s[1..])
  }

  /** Text without white space is kept as it is, in front of whatever
      follows. */
  lemma {:induction false} CollapseSpacesKeepsWord(u: string, v: string)
    requires forall i :: 0 <= i < |u| ==> !IsWhitespace(u[i])
    ensures CollapseSpaces(u + v) == u + CollapseSpaces(v)
  {
    if u == [] {
      assert u + v == v;
    } else {
      assert (u + v)[0] == u[0];
      assert (u + v)[1..] == u[1..] + v;
      CollapseSpacesKeepsWord(u[1..], v);
      assert u == [u[0]] + u[1..];
    }
  }

  /** A whole run of white space becomes a single space. With
      CollapseSpacesKeepsWord this fixes the result for every input. */
  lemma CollapseSpacesRun(w: string, v: string)
    requires w != [] && forall i :: 0 <= i < |w| ==> IsWhitespace(w[i])
    requires v != [] ==> !IsWhitespace(v[0])
    ensures CollapseSpaces(w + v) == [' '] + CollapseSpaces(v)
  {
    var s := w + v;
    assert forall i :: 0 <= i < |w| ==> s[i] == w[i];
    assert |w| < |s| ==> s[|w|] == v[0];
    assert SpaceRun(s) == |w|;
    assert s[|w|..] == v;
  }

  /** Collapsing white space never creates a tag. */
  lemma {:induction false} CollapseSpacesKeepsNoTag(s: string)
    requires NoTag(s)
    ensures NoTag(CollapseSpaces(s))
    decreases |s|
  {
    if s != [] {
      if IsWhitespace(s[0]) {
        var n := SpaceRun(s);
        NoTagSuffix(s, n);
        CollapseSpacesKeepsNoTag(s[n..]);
        NoTagCons(' ', CollapseSpaces(s[n..]));
      } else {
        var rest := CollapseSpaces(s[1..]);
        NoTagSuffix(s, 1);
        CollapseSpacesKeepsNoTag(s[1..]);
        if s[0] == '<' {
          NoTagHead(s);
          assert '>' !in rest;
        }
        NoTagCons(s[0], rest);
      }
    }
  }

  /** `s.trim()`: leading and trailing white space removed. */
  function Trim(s: string): (r: string)
    ensures |r| <= |s|
    ensures exists a, b :: (0 <= a <= b <= |s| && r == s[a..b]
      && (forall i :: 0 <= i < a ==> IsWhitespace(s[i]))
      && (forall i :: b <= i < |s| ==> IsWhitespace(s[i])))
    ensures |r| > 0 ==> !IsWhitespace(r[0]) && !IsWhitespace(r[|r| - 1])
    ensures r == [] <==> forall i :: 0 <= i < |s| ==> IsWhitespace(s[i])
  {
    var a := SpaceRun(s);
    var b := |s| - SpaceRunBack(s);
    if a >= b then
      assert forall i :: 0 <= i < |s| ==> IsWhitespace(s[i]) by {
        forall i | 0 <= i < |s|
          ensures IsWhitespace(s[i])
        {
          if i >= a { assert i >= b; }
        }
      }
      s[0..0]
    else
      assert !IsWhitespace(s[a]);
      s[a..b]
  }

  /** Length of the longest suffix of white space. */
  function SpaceRunBack(s: string): (n: nat)
    ensures n <= |s|
    ensures forall i :: |s| - n <= i < |s| ==> IsWhitespace(s[i])
    ensures n < |s| ==> !IsWhitespace(s[|s| - n - 1])
  {
    if s == [] || !IsWhitespace(s[|s| - 1]) then 0
    else 1 + SpaceRunBack(s[..|s| - 1])
  }

  predicate ControlFree(s: string) {
    forall i :: 0 <= i < |s| ==> !IsControl(s[i])
  }

  /** Characters drawn from a control-free string, or spaces, are control-free. */
  lemma ControlFreeFrom(s: string, r: string)
    requires ControlFree(s)
    requires forall c :: c in r ==> c in s || c == ' '
    ensures ControlFree(r)
  {
    forall i | 0 <= i < |r|
      ensures !IsControl(r[i])
    {
      assert r[i] in r;
    }
  }

  /** Every white-space character is a space and no two are adjacent. */
  predicate Collapsed(s: string) {
    && (forall i :: 0 <= i < |s| && IsWhitespace(s[i]) ==> s[i] == ' ')
    && (forall i :: 0 <= i < |s| - 1 ==> !(IsWhitespace(s[i]) && IsWhitespace(s[i + 1])))
  }

  /** Collapsed, and no white space at either end. */
  predicate SingleSpaced(s: string) {
    Collapsed(s) && (|s| > 0 ==> !IsWhitespace(s[0]) && !IsWhitespace(s[|s| - 1]))
  }

  /** Trimming keeps what holds of every character and every adjacent pair. */
  lemma TrimKeeps(s: string)
    requires Collapsed(s) && ControlFree(s) && NoTag(s)
    ensures SingleSpaced(Trim(s)) && ControlFree(Trim(s)) && NoTag(Trim(s))
  {
    var a, b :| 0 <= a <= b <= |s| && Trim(s) == s[a..b];
    SliceKeeps(s, a, b);
  }

  lemma SliceKeeps(s: string, a: nat, b: nat)
    requires a <= b <= |s|
    ensures Collapsed(s) ==> Collapsed(s[a..b])
    ensures ControlFree(s) ==> ControlFree(s[a..b])
    ensures NoTag(s) ==> NoTag(s[a..b])
  {
    var r := s[a..b];
    assert forall i :: 0 <= i < |r| ==> r[i] == s[a + i];
  }

  /** What `sanitizeInput` returns, step by step. The result is at most 100
      characters long, holds no control character and no `<…>` tag, and is
      single-spaced with no white space at either end. */
  function Sanitized(input: string): (r: string)
    ensures input == [] ==> r == []
    ensures |r| <= MaxLength
    ensures ControlFree(r)
    ensures NoTag(r)
    ensures SingleSpaced(r)
  {
    if input == [] then []
    else
      var noControl := RemoveControl(Take(input));
      var clean := StripTags(noControl);
      ControlFreeFrom(noControl, clean);
      var removed := RemoveAll(clean, SanitizerPatterns);
      ControlFreeFrom(clean, removed);
      var collapsed := CollapseSpaces(removed);
      ControlFreeFrom(removed, collapsed);
      CollapseSpacesKeepsNoTag(removed);
      TrimKeeps(collapsed);
      Trim(collapsed)
  }

  /** `sanitizeInput`: the fixed steps, then a loop that removes the patterns
      of the block list one after the other. */
  method SanitizeInput(input: string) returns (sanitized: string)
    ensures sanitized == Sanitized(input)
  {
    if input == [] {
      return [];
    }
    SanitizedSteps(input);
    sanitized := Take(input);
    sanitized := RemoveControl(sanitized);
    sanitized := StripTags(sanitized);
    sanitized := RemoveBlockList(sanitized);
    sanitized := CollapseSpaces(sanitized);
    sanitized := Trim(sanitized);
  }

  /** The loop over the block list: each pattern removed in turn from the
      result of the previous one. */
  method RemoveBlockList(clean: string) returns (sanitized: string)
    ensures sanitized == RemoveAll(clean, SanitizerPatterns)
  {
    var patterns := SanitizerPatterns;
    SanitizerPatternsWellFormed();
    sanitized := clean;
    for k := 0 to |patterns|
      invariant sanitized == RemoveAll(clean, patterns[..k])
    {
      RemoveAllStep(clean, patterns, k);
      sanitized := RemovePattern(sanitized, patterns[k]);
    }
    assert patterns[..|patterns|] == patterns;
  }

  lemma SanitizerPatternsWellFormed()
    ensures WellFormed(SanitizerPatterns)
  {
  }

  /** The steps of `Sanitized` for a non-empty input, in order. */
  lemma SanitizedSteps(input: string)
    requires input != []
    ensures Sanitized(input) ==
      Trim(CollapseSpaces(RemoveAll(StripTags(RemoveControl(Take(input))), SanitizerPatterns)))
  {
  }

  /** Removing one more pattern of the list. */
  lemma RemoveAllStep(s: string, ps: seq<Pattern>, k: nat)
    requires WellFormed(ps) && k < |ps|
    ensures RemoveAll(s, ps[..k + 1]) == RemovePattern(RemoveAll(s, ps[..k]), ps[k])
  {
    assert ps[..k + 1][..k] == ps[..k];
  }

  /** A string with no control character, no tag, no match of any block-list
      pattern, and single spacing, at most 100 long, is returned unchanged:
      sanitizing leaves clean input alone. */
  lemma SanitizedKeepsCleanInput(s: string)
    requires |s| <= MaxLength
    requires ControlFree(s) && NoTag(s) && SingleSpaced(s)
    requires forall k, i :: 0 <= k < |SanitizerPatterns| && 0 <= i < |s| ==>
      MatchLength(s[i..], SanitizerPatterns[k]) == 0
    ensures Sanitized(s) == s
  {
    if s != [] {
      RemoveControlKeeps(s);
      StripTagsKeeps(s);
      RemoveAllKeeps(s, SanitizerPatterns);
      CollapseSpacesKeeps(s);
      TrimKeepsTrimmed(s);
    }
  }

  lemma {:induction false} RemoveControlKeeps(s: string)
    requires ControlFree(s)
    ensures RemoveControl(s) == s
  {
    if s != [] {
      RemoveControlKeeps(s[1..]);
    }
  }

  lemma {:induction false} StripTagsKeeps(s: string)
    requires NoTag(s)
    ensures StripTags(s) == s
  {
    if s != [] {
      if s[0] == '<' {
        NoTagHead(s);
      }
      NoTagSuffix(s, 1);
      StripTagsKeeps(s[1..]);
    }
  }

  lemma {:induction false} RemovePatternKeeps(s: string, p: Pattern)
    requires p.Literal? ==> p.text != []
    requires forall i :: 0 <= i < |s| ==> MatchLength(s[i..], p) == 0
    ensures RemovePattern(s, p) == s
  {
    if s != [] {
      assert MatchLength(s[0..], p) == 0;
      assert forall i :: 0 <= i < |s[1..]| ==> s[1..][i..] == s[i + 1..];
      RemovePatternKeeps(s[1..], p);
    }
  }

  lemma {:induction false} RemoveAllKeeps(s: string, ps: seq<Pattern>)
    requires WellFormed(ps)
    requires forall k, i :: 0 <= k < |ps| && 0 <= i < |s| ==> MatchLength(s[i..], ps[k]) == 0
    ensures RemoveAll(s, ps) == s
  {
    if ps != [] {
      RemoveAllKeeps(s, ps[..|ps| - 1]);
      RemovePatternKeeps(s, ps[|ps| - 1]);
    }
  }

  lemma {:induction false} CollapseSpacesKeeps(s: string)
    requires Collapsed(s)
    ensures CollapseSpaces(s) == s
  {
    if s != [] {
      assert Collapsed(s[1..]);
      if IsWhitespace(s[0]) {
        assert SpaceRun(s) == 1 by {
          if |s| > 1 {
            assert !IsWhitespace(s[1]);
          }
        }
      }
      CollapseSpacesKeeps(s[1..]);
    }
  }

  lemma TrimKeepsTrimmed(s: string)
    requires |s| > 0 ==> !IsWhitespace(s[0]) && !IsWhitespace(s[|s| - 1])
    ensures Trim(s) == s
  {
    if s != [] {
      assert SpaceRun(s) == 0;
      assert SpaceRunBack(s) == 0;
    }
  }

  /** The block list of `isValidInput`: the sanitizer's literals without
      `</script>`, and no event-handler pattern. */
  const ValidatorPatterns: seq<string> :=
    ["javascript:", "data:", "vbscript:", "<script", "<iframe", "<object", "<embed"]

  /** `p` occurs somewhere in `s`, letters compared without case. */
  predicate OccursFolded(s: string, p: string) {
    exists i :: 0 <= i <= |s| && StartsWithFolded(s[i..], p)
  }

  /** `pattern.test(s)` for a literal pattern: a search from the left. */
  function SearchFolded(s: string, p: string): (found: bool)
    ensures found <==> OccursFolded(s, p)
  {
    if StartsWithFolded(s, p) then
      assert s[0..] == s;
      true
    else if s == [] then
      false
    else
      var found := SearchFolded(s[1..], p);
      assert forall i :: 1 <= i <= |s| ==> s[i..] == s[1..][i - 1..];
      assert s[0..] == s;
      found
  }

  /** `/[\x00-\x1F\x7F]/.test(s)`. */
  function HasControl(s: string): (found: bool)
    ensures found <==> !ControlFree(s)
  {
    if s == [] then false else IsControl(s[0]) || HasControl(s[1..])
  }

  /** `patterns.some((pattern) => pattern.test(s))`. */
  function SomeOccurs(s: string, patterns: seq<string>): (found: bool)
    ensures found <==> exists k :: 0 <= k < |patterns| && OccursFolded(s, patterns[k])
  {
    if patterns == [] then false
    else SearchFolded(s, patterns[0]) || SomeOccurs(s, patterns[1..])
  }

  /** `isValidInput`: rejected when blank after trimming, longer than 100,
      holding a control character, or holding one of the validator's
      literals in any letter case; accepted otherwise. */
  function IsValidInput(input: string): (ok: bool)
    ensures ok <==>
      && (exists i :: 0 <= i < |input| && !IsWhitespace(input[i]))
      && |input| <= MaxLength
      && ControlFree(input)
      && (forall k :: 0 <= k < |ValidatorPatterns| ==> !OccursFolded(input, ValidatorPatterns[k]))
  {
    if Trim(input) == [] then false
    else if |input| > MaxLength then false
    else if HasControl(input) then false
    else !SomeOccurs(input, ValidatorPatterns)
  }

  /** The validator does not look for event handlers: it accepts `onclick=x`,
      which the sanitizer's pattern `/on\w+\s*=/gi` matches in full. */
  lemma ValidatorAcceptsEventHandler()
    ensures IsValidInput("onclick=x")
    ensures MatchLength("onclick=x", EventHandler) == 8
  {
    var s := "onclick=x";
    assert !IsWhitespace(s[0]);
    assert ControlFree(s);
    forall k | 0 <= k < |ValidatorPatterns|
      ensures !OccursFolded(s, ValidatorPatterns[k])
    {
      OccursFoldedStartsWithHead(s, ValidatorPatterns[k]);
    }
    HandlerMatchesOnclick();
  }

  lemma HandlerMatchesOnclick()
    ensures MatchLength("onclick=x", EventHandler) == 8
  {
    var s := "onclick=x";
    var t := s[2..];
    assert t == "click=x";
    assert IsWordChar(t[0]) && IsWordChar(t[1]) && IsWordChar(t[2]) && IsWordChar(t[3]);
    assert IsWordChar(t[4]) && !IsWordChar(t[5]);
    assert WordRun(t) == 5;
    assert s[7..] == "=x";
    assert SpaceRun(s[7..]) == 0;
  }

  /** An occurrence starts with the pattern's first character, up to case. */
  lemma OccursFoldedStartsWithHead(s: string, p: string)
    requires p != []
    requires forall i :: 0 <= i < |s| ==> AsciiLower(s[i]) != AsciiLower(p[0])
    ensures !OccursFolded(s, p)
  {
    forall i | 0 <= i <= |s|
      ensures !StartsWithFolded(s[i..], p)
    {
      if i < |s| {
        assert s[i..][0] == s[i];
      }
    }
  }

  /** Each pattern is removed in a single pass, so removing one occurrence can
      join its neighbours into a new one: `javajavascript:script:` loses its
      inner `javascript:` and becomes `javascript:`. */
  lemma RemovalIsSinglePass(u: string, t: string, v: string)
    requires u == "java" && v == "script:" && t == u + v
    ensures RemovePattern(u + t + v, Literal(t)) == t
  {
    NoMatchBeforeOccurrence(u, t, v);
    RemoveOneOccurrence(u, t, v);
  }

  lemma NoMatchBeforeOccurrence(u: string, t: string, v: string)
    requires u == "java" && v == "script:" && t == u + v
    ensures forall i :: 0 <= i < |u| ==> MatchLength((u + t + v)[i..], Literal(t)) == 0
  {
    var s := u + t + v;
    assert |u| == 4 && |t| == 11;
    assert s[0] == 'j' && s[1] == 'a' && s[2] == 'v' && s[3] == 'a' && s[4] == 'j';
    assert t[0] == 'j' && t[4] == 's';
    forall i | 0 <= i < |u|
      ensures MatchLength(s[i..], Literal(t)) == 0
    {
      if i == 0 {
        NoMatchAt(s, 0, t, 4);
      } else {
        NoMatchAt(s, i, t, 0);
      }
    }
  }

  /** An occurrence of `t` preceded by text in which no match starts, and
      followed by text too short to hold another, is all that goes. */
  lemma RemoveOneOccurrence(u: string, t: string, v: string)
    requires t != [] && |v| < |t|
    requires forall i :: 0 <= i < |u| ==> MatchLength((u + t + v)[i..], Literal(t)) == 0
    ensures RemovePattern(u + t + v, Literal(t)) == u + v
  {
    var p, w := Literal(t), t + v;
    assert u + t + v == u + w;
    RemovePatternAfterPrefix(u, w, p);
    assert w[..|t|] == t;
    assert w[|t|..] == v;
    assert MatchLength(w, p) == |t|;
    RemovePatternKeeps(v, p);
  }

  /** A prefix in which no match starts is kept as it is. */
  lemma {:induction false} RemovePatternAfterPrefix(u: string, w: string, p: Pattern)
    requires p.Literal? ==> p.text != []
    requires forall i :: 0 <= i < |u| ==> MatchLength((u + w)[i..], p) == 0
    ensures RemovePattern(u + w, p) == u + RemovePattern(w, p)
  {
    if u == [] {
      assert u + w == w;
    } else {
      NoMatchInTail(u, w, p);
      RemovePatternAfterPrefix(u[1..], w, p);
      ConsSplit(u, w);
      RemovePatternKeepsHead(u[0], u[1..] + w, p);
      ConsRegroup(u, RemovePattern(w, p));
    }
  }

  lemma NoMatchInTail(u: string, w: string, p: Pattern)
    requires p.Literal? ==> p.text != []
    requires u != []
    requires forall i :: 0 <= i < |u| ==> MatchLength((u + w)[i..], p) == 0
    ensures forall i :: 0 <= i < |u| - 1 ==> MatchLength((u[1..] + w)[i..], p) == 0
  {
    forall i | 0 <= i < |u| - 1
      ensures MatchLength((u[1..] + w)[i..], p) == 0
    {
      assert (u[1..] + w)[i..] == (u + w)[i + 1..];
    }
  }

  lemma RemovePatternKeepsHead(c: char, v: string, p: Pattern)
    requires p.Literal? ==> p.text != []
    requires MatchLength([c] + v, p) == 0
    ensures RemovePattern([c] + v, p) == [c] + RemovePattern(v, p)
  {
    var s := [c] + v;
    assert s[1..] == v;
    RemovePatternNoMatch(s, p);
  }

  lemma ConsSplit(u: string, w: string)
    requires u != []
    ensures (u + w)[0..] == u + w == [u[0]] + (u[1..] + w)
  {
    assert [u[0]] + u[1..] == u;
  }

  lemma ConsRegroup(u: string, v: string)
    requires u != []
    ensures [u[0]] + (u[1..] + v) == u + v
  {
    assert [u[0]] + u[1..] == u;
  }

  /** Where no match starts, the first character is kept. */
  lemma RemovePatternNoMatch(s: string, p: Pattern)
    requires p.Literal? ==> p.text != []
    requires s != [] && MatchLength(s, p) == 0
    ensures RemovePattern(s, p) == [s[0]] + RemovePattern(s[1..], p)
  {
  }

  /** A mismatch at offset `j` rules out a match at position `i`. */
  lemma NoMatchAt(s: string, i: nat, t: string, j: nat)
    requires i + j < |s| && j < |t|
    requires AsciiLower(s[i + j]) != AsciiLower(t[j])
    ensures MatchLength(s[i..], Literal(t)) == 0
  {
    assert s[i..][j] == s[i + j];
  }
}
