/** Python `str` operations used by the scraper, on `string == seq<char>`:
    `in`, `lower()`, `strip()`, `replace(old, new)` and `sep.join(xs)`. */
module Strings {

  // ---------------------------------------------------------------------------
  // Character classes
  // ---------------------------------------------------------------------------

  /** Python's `str.isspace()`: the code points `strip()` removes with no argument. */
  predicate IsSpace(c: char) {
    var n := c as int;
    (9 <= n <= 13) || (28 <= n <= 32) || n == 0x85 || n == 0xA0 || n == 0x1680
    || (0x2000 <= n <= 0x200A) || n == 0x2028 || n == 0x2029 || n == 0x202F
    || n == 0x205F || n == 0x3000
  }

  /** Lower-casing of one character: ASCII `A`-`Z` and the Latin-1 capitals
      `À`-`Þ` (without `×`); every other character is kept. */
  function LowerChar(c: char): (r: char)
    ensures ('A' <= c <= 'Z') ==> 'a' <= r <= 'z'
    ensures !('A' <= c <= 'Z') && !('À' <= c <= 'Þ') ==> r == c
  {
    var n := c as int;
    if 'A' <= c <= 'Z' || (0xC0 <= n <= 0xDE && n != 0xD7) then (n + 32) as char else c
  }

  /** `s.lower()`, character by character. */
  function Lower(s: string): (r: string)
    ensures |r| == |s|
    ensures forall i :: 0 <= i < |s| ==> r[i] == LowerChar(s[i])
  {
    if s == [] then [] else [LowerChar(s[0])] + Lower(s[1..])
  }

  /** Lower-casing works piecewise. */
  lemma LowerConcat(s: string, t: string)
    ensures Lower(s + t) == Lower(s) + Lower(t)
  {
    assert forall i :: 0 <= i < |s + t| ==> (s + t)[i] == if i < |s| then s[i] else t[i - |s|];
  }

  // ---------------------------------------------------------------------------
  // Substring test: `sub in s`
  // ---------------------------------------------------------------------------

  predicate Contains(s: string, sub: string)
    decreases |s|
  {
    sub <= s || (s != [] && Contains(s[1..], sub))
  }

  // ---------------------------------------------------------------------------
  // `s.strip()` with no argument
  // ---------------------------------------------------------------------------

  function LStrip(s: string): string
  {
    if s != [] && IsSpace(s[0]) then LStrip(s[1..]) else s
  }

  function RStrip(s: string): string
  {
    if s != [] && IsSpace(s[|s| - 1]) then RStrip(s[..|s| - 1]) else s
  }

  function Strip(s: string): string
  {
    RStrip(LStrip(s))
  }

  ghost predicate AllSpace(s: string)
  {
    forall k :: 0 <= k < |s| ==> IsSpace(s[k])
  }

  /** `r` is the infix of `s` at offset `i`, and `s` holds only whitespace
      before and after it. */
  ghost predicate InfixBetweenSpaces(s: string, r: string, i: int)
  {
    0 <= i && i + |r| <= |s| && s[i..i + |r|] == r
    && AllSpace(s[..i]) && AllSpace(s[i + |r|..])
  }

  /** Neither the first nor the last character of `r` is whitespace. */
  ghost predicate Trimmed(s: string)
  {
    s == [] || (!IsSpace(s[0]) && !IsSpace(s[|s| - 1]))
  }

  lemma {:induction false} LStripShape(s: string)
    ensures InfixBetweenSpaces(s, LStrip(s), |s| - |LStrip(s)|)
    ensures LStrip(s) == [] || !IsSpace(LStrip(s)[0])
  {
    if s != [] && IsSpace(s[0]) {
      LStripShape(s[1..]);
      var i := |s| - |LStrip(s)|;
      assert s[1..][..i - 1] == s[1..i];
      assert s[..i] == [s[0]] + s[1..i];
      assert s[i..] == s[1..][i - 1..];
    } else {
      assert s[..0] == [];
    }
  }

  lemma {:induction false} RStripShape(s: string)
    ensures InfixBetweenSpaces(s, RStrip(s), 0)
    ensures RStrip(s) == [] || !IsSpace(RStrip(s)[|RStrip(s)| - 1])
    decreases |s|
  {
    if s != [] && IsSpace(s[|s| - 1]) {
      var t := s[..|s| - 1];
      RStripShape(t);
      var j := |RStrip(s)|;
      assert s[..j] == t[..j];
      assert s[j..] == t[j..] + [s[|s| - 1]];
    } else {
      assert s[0..|s|] == s;
      assert s[|s|..] == [];
    }
  }

  /** `strip()` removes exactly the leading and the trailing whitespace: the
      result is an infix of `s`, everything cut off before and after it is
      whitespace, and the result itself neither starts nor ends with whitespace. */
  lemma StripShape(s: string)
    ensures exists i :: InfixBetweenSpaces(s, Strip(s), i)
    ensures Trimmed(Strip(s))
  {
    var l := LStrip(s);
    LStripShape(s);
    var i := |s| - |l|;
    RStripShape(l);
    var r := Strip(s);
    assert l == s[i..];
    assert s[i..i + |r|] == l[..|r|] == r;
    assert s[i + |r|..] == l[|r|..];
    assert InfixBetweenSpaces(s, r, i);
    if r != [] {
      assert r[0] == l[0];
    }
  }

  /** Every character of `strip(s)` is a character of `s`. */
  lemma StripChars(s: string)
    ensures forall k :: 0 <= k < |Strip(s)| ==> Strip(s)[k] in s
  {
    StripShape(s);
    var i :| InfixBetweenSpaces(s, Strip(s), i);
    forall k | 0 <= k < |Strip(s)| ensures Strip(s)[k] in s {
      assert Strip(s)[k] == s[i..i + |Strip(s)|][k] == s[i + k];
    }
  }

  /** Leading whitespace in front of text that starts with non-whitespace is
      exactly what `lstrip()` removes. */
  lemma {:induction false} LStripSpaces(w: string, t: string)
    requires AllSpace(w) && (t == [] || !IsSpace(t[0]))
    ensures LStrip(w + t) == t
    decreases |w|
  {
    if w == [] {
      assert w + t == t;
    } else {
      assert (w + t)[0] == w[0] && (w + t)[1..] == w[1..] + t;
      assert AllSpace(w[1..]) by {
        assert forall k :: 0 <= k < |w[1..]| ==> w[1..][k] == w[k + 1];
      }
      LStripSpaces(w[1..], t);
    }
  }

  /** `strip()` of whitespace followed by trimmed text is that text. */
  lemma StripSpaces(w: string, t: string)
    requires AllSpace(w) && Trimmed(t)
    ensures Strip(w + t) == t
  {
    LStripSpaces(w, t);
  }

  /** A stripped string is left alone by a second `strip()`. */
  lemma StripIdempotent(s: string)
    ensures Strip(Strip(s)) == Strip(s)
  {
    var t := Strip(s);
    StripShape(s);
    assert LStrip(t) == t;
    assert RStrip(t) == t;
  }

  // ---------------------------------------------------------------------------
  // `s.replace(pat, rep)`: every occurrence, left to right, non-overlapping
  // ---------------------------------------------------------------------------

  /** Python's `s.replace("", rep)`: `rep` before every character and at the end. */
  function InsertEverywhere(s: string, rep: string): string
  {
    if s == [] then rep else rep + [s[0]] + InsertEverywhere(s[1..], rep)
  }

  function Replace(s: string, pat: string, rep: string): string
    decreases |s|
  {
    if pat == [] then InsertEverywhere(s, rep)
    else if pat <= s then rep + Replace(s[|pat|..], pat, rep)
    else if s == [] then []
    else [s[0]] + Replace(s[1..], pat, rep)
  }

  /** Replacing a pattern that does not occur changes nothing. */
  lemma {:induction false} ReplaceAbsent(s: string, pat: string, rep: string)
    requires pat != []
    requires !Contains(s, pat)
    ensures Replace(s, pat, rep) == s
    decreases |s|
  {
    if s != [] {
      ReplaceAbsent(s[1..], pat, rep);
    }
  }

  /** Replacing one character by another one rewrites each occurrence in place
      and keeps every other character. */
  lemma {:induction false} ReplaceChar(s: string, a: char, b: char)
    ensures |Replace(s, [a], [b])| == |s|
    ensures forall i :: 0 <= i < |s| ==>
      Replace(s, [a], [b])[i] == (if s[i] == a then b else s[i])
    decreases |s|
  {
    if s != [] {
      ReplaceChar(s[1..], a, b);
      var r := Replace(s, [a], [b]);
      var t := Replace(s[1..], [a], [b]);
      assert r == (if s[0] == a then [b] else [s[0]]) + t by {
        if [a] <= s { assert s[|[a]|..] == s[1..]; }
      }
      forall i | 0 <= i < |s| ensures r[i] == (if s[i] == a then b else s[i]) {
        if i > 0 { assert r[i] == t[i - 1] && s[i] == s[1..][i - 1]; }
      }
    }
  }

  /** A one-character replacement works piecewise. */
  lemma ReplaceCharConcat(s: string, t: string, a: char, b: char)
    ensures Replace(s + t, [a], [b]) == Replace(s, [a], [b]) + Replace(t, [a], [b])
  {
    ReplaceChar(s + t, a, b);
    ReplaceChar(s, a, b);
    ReplaceChar(t, a, b);
    var l, r := Replace(s + t, [a], [b]), Replace(s, [a], [b]) + Replace(t, [a], [b]);
    forall i | 0 <= i < |l| ensures l[i] == r[i] {
      if i < |s| {
        assert (s + t)[i] == s[i];
      } else {
        assert (s + t)[i] == t[i - |s|];
      }
    }
  }

  /** No occurrence of `a` survives `replace(a, b)` when `b` differs from `a`. */
  lemma ReplaceCharRemoves(s: string, a: char, b: char)
    requires a != b
    ensures a !in Replace(s, [a], [b])
  {
    ReplaceChar(s, a, b);
    var r := Replace(s, [a], [b]);
    assert forall i :: 0 <= i < |r| ==> r[i] != a;
  }

  /** Only spaces may have turned into line breaks between `s` and `t`;
      every other position is the same. */
  ghost predicate SpacesToBreaks(s: string, t: string)
  {
    |s| == |t| &&
    forall i :: 0 <= i < |s| ==> t[i] == s[i] || (s[i] == ' ' && t[i] == '\n')
  }

  lemma SpacesToBreaksTrans(s: string, t: string, u: string)
    requires SpacesToBreaks(s, t) && SpacesToBreaks(t, u)
    ensures SpacesToBreaks(s, u)
  {
  }

  /** Every line break of `t` that was not already in `s` stands where `s`
      has a space followed by `w`. */
  ghost predicate BreaksBefore(s: string, t: string, w: string)
    requires |s| == |t|
  {
    forall i :: 0 <= i < |s| && t[i] == '\n' && s[i] != '\n' ==>
      i + 1 + |w| <= |s| && s[i + 1..i + 1 + |w|] == w
  }

  lemma BreakRewriteHead(s: string, w: string, t: string)
    requires [' '] + w <= s
    requires SpacesToBreaks(s[1 + |w|..], t) && BreaksBefore(s[1 + |w|..], t, w)
    ensures SpacesToBreaks(s, ['\n'] + w + t) && BreaksBefore(s, ['\n'] + w + t, w)
  {
    var n, rest, r := 1 + |w|, s[1 + |w|..], ['\n'] + w + t;
    assert |r| == |s|;
    forall i | 0 <= i < |s|
      ensures r[i] == s[i] || (s[i] == ' ' && r[i] == '\n')
      ensures r[i] == '\n' && s[i] != '\n' ==> i + 1 + |w| <= |s| && s[i + 1..i + 1 + |w|] == w
    {
      if i == 0 {
        assert s[0] == ' ' && r[0] == '\n';
        assert s[1..1 + |w|] == w;
      } else if i < n {
        assert r[i] == w[i - 1] == s[i];
      } else {
        var j := i - n;
        assert r[i] == t[j] && s[i] == rest[j];
        if r[i] == '\n' && s[i] != '\n' {
          assert s[i + 1..i + 1 + |w|] == rest[j + 1..j + 1 + |w|];
        }
      }
    }
  }

  lemma BreakRewriteKeep(s: string, w: string, t: string)
    requires s != []
    requires SpacesToBreaks(s[1..], t) && BreaksBefore(s[1..], t, w)
    ensures SpacesToBreaks(s, [s[0]] + t) && BreaksBefore(s, [s[0]] + t, w)
  {
    var rest, r := s[1..], [s[0]] + t;
    forall i | 0 < i < |s| && r[i] == '\n' && s[i] != '\n'
      ensures i + 1 + |w| <= |s| && s[i + 1..i + 1 + |w|] == w
    {
      var j := i - 1;
      assert r[i] == t[j] && s[i] == rest[j];
      assert j + 1 + |w| <= |rest| && rest[j + 1..j + 1 + |w|] == w;
      assert s[i + 1..i + 1 + |w|] == rest[j + 1..j + 1 + |w|];
    }
  }

  /** `replace(" " + w, "\n" + w)`: the string keeps its length, a space is the
      only thing that can become a line break, and every new line break is
      followed by `w`. */
  lemma {:induction false} ReplaceLeadingSpace(s: string, w: string)
    ensures SpacesToBreaks(s, Replace(s, [' '] + w, ['\n'] + w))
    ensures BreaksBefore(s, Replace(s, [' '] + w, ['\n'] + w), w)
    decreases |s|
  {
    var pat, rep := [' '] + w, ['\n'] + w;
    if pat <= s {
      var rest := s[|pat|..];
      ReplaceLeadingSpace(rest, w);
      BreakRewriteHead(s, w, Replace(rest, pat, rep));
      assert Replace(s, pat, rep) == rep + Replace(rest, pat, rep);
    } else if s != [] {
      ReplaceLeadingSpace(s[1..], w);
      BreakRewriteKeep(s, w, Replace(s[1..], pat, rep));
    }
  }

  // ---------------------------------------------------------------------------
  // `sep.join(xs)`
  // ---------------------------------------------------------------------------

  function Join(sep: string, xs: seq<string>): string
  {
    if xs == [] then []
    else if |xs| == 1 then xs[0]
    else xs[0] + sep + Join(sep, xs[1..])
  }

  /** Joining one more item appends the separator and that item. */
  lemma {:induction false} JoinSnoc(sep: string, xs: seq<string>, x: string)
    ensures Join(sep, xs + [x]) == if xs == [] then x else Join(sep, xs) + sep + x
  {
    if |xs| > 1 {
      assert (xs + [x])[1..] == xs[1..] + [x];
      JoinSnoc(sep, xs[1..], x);
    } else if |xs| == 1 {
      assert (xs + [x])[1..] == [x];
    }
  }

  // ---------------------------------------------------------------------------
  // Infixes
  // ---------------------------------------------------------------------------

  /** An occurrence in `s` is an occurrence in `s + t`. */
  lemma {:induction false} ContainsLeft(s: string, t: string, x: string)
    requires Contains(s, x)
    ensures Contains(s + t, x)
    decreases |s|
  {
    if !(x <= s) {
      assert (s + t)[1..] == s[1..] + t;
      ContainsLeft(s[1..], t, x);
    }
  }

  /** An occurrence in `t` is an occurrence in `s + t`. */
  lemma {:induction false} ContainsRight(s: string, t: string, x: string)
    requires Contains(t, x)
    ensures Contains(s + t, x)
    decreases |s|
  {
    if s == [] {
      assert s + t == t;
    } else {
      assert (s + t)[1..] == s[1..] + t;
      ContainsRight(s[1..], t, x);
    }
  }

  /** Whatever stands between a prefix and a suffix is contained in the whole. */
  lemma ContainsInfix(a: string, x: string, b: string)
    ensures Contains(a + x + b, x)
  {
    assert x <= x + b;
    ContainsRight(a, x + b, x);
    assert a + (x + b) == a + x + b;
  }

  /** A pattern longer than the text never occurs in it. */
  lemma {:induction false} ContainsTooLong(s: string, sub: string)
    requires |s| < |sub|
    ensures !Contains(s, sub)
    decreases |s|
  {
    if s != [] {
      ContainsTooLong(s[1..], sub);
    }
  }

  /** A one-character pattern occurs exactly when the character does. */
  lemma {:induction false} ContainsChar(s: string, c: char)
    ensures Contains(s, [c]) <==> c in s
    decreases |s|
  {
    if s != [] {
      ContainsChar(s[1..], c);
      assert c in s <==> s[0] == c || c in s[1..];
    }
  }

  /** Items joined by `a`, then every `a` replaced by `b`, are the items
      joined by `b`, as long as no item holds an `a` of its own. */
  lemma {:induction false} JoinReplaceSep(xs: seq<string>, a: char, b: char)
    requires forall i :: 0 <= i < |xs| ==> a !in xs[i]
    ensures Replace(Join([a], xs), [a], [b]) == Join([b], xs)
    decreases |xs|
  {
    if xs != [] {
      ContainsChar(xs[0], a);
      ReplaceAbsent(xs[0], [a], [b]);
      if |xs| > 1 {
        JoinReplaceSep(xs[1..], a, b);
        ReplaceCharConcat(xs[0] + [a], Join([a], xs[1..]), a, b);
        ReplaceCharConcat(xs[0], [a], a, b);
        assert Replace([a], [a], [b]) == [b];
      }
    }
  }

  /** `sub` stands in `s` starting at index `i`. */
  predicate OccursAt(s: string, sub: string, i: int)
  {
    0 <= i && i + |sub| <= |s| && s[i..i + |sub|] == sub
  }

  /** A containment has a witness index. */
  lemma {:induction false} ContainsWitness(s: string, sub: string) returns (i: int)
    requires Contains(s, sub)
    ensures OccursAt(s, sub, i)
    decreases |s|
  {
    if sub <= s {
      i := 0;
    } else {
      var t := s[1..];
      var j := ContainsWitness(t, sub);
      i := j + 1;
      forall n | 0 <= n < |sub|
        ensures s[i..i + |sub|][n] == sub[n]
      {
        assert t[j..j + |sub|][n] == t[j + n] == s[i + n];
      }
    }
  }

  /** An occurrence at any index is a containment. */
  lemma {:induction false} ContainsAt(s: string, sub: string, i: int)
    requires OccursAt(s, sub, i)
    ensures Contains(s, sub)
    decreases i
  {
    if i == 0 {
      assert s[..|sub|] == s[0..|sub|];
    } else {
      var t := s[1..];
      forall n | 0 <= n < |sub|
        ensures t[i - 1..i - 1 + |sub|][n] == sub[n]
      {
        assert s[i..i + |sub|][n] == s[i + n] == t[i - 1 + n];
      }
      ContainsAt(t, sub, i - 1);
    }
  }

  /** `sub in s` holds exactly when `sub` stands at some index of `s`. */
  lemma ContainsIff(s: string, sub: string)
    ensures Contains(s, sub) <==> exists i :: OccursAt(s, sub, i)
  {
    if Contains(s, sub) {
      var i := ContainsWitness(s, sub);
    }
    forall i | OccursAt(s, sub, i)
      ensures Contains(s, sub)
    {
      ContainsAt(s, sub, i);
    }
  }
}
