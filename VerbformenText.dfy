/** How one conjugation block's text becomes the stored form list
    (util/bot_tools.py, lines 59-69): the tense name is cut out, the text is
    flattened to one line and trimmed, and then line breaks are put back in,
    one line per grammatical person or one word per line. */
module VerbformenText {
  import opened Strings

  /** The personal pronouns, in the order the source lists them. */
  const PRONOUNS: seq<string> := ["ich", "du", "er", "wir", "ihr", "sie"]

  /** `key.lower() in text.lower()`: the block mentions the tense, in any case. */
  predicate MentionsTense(text: string, key: string)
  {
    Contains(Lower(text), Lower(key))
  }

  /** `text.replace(key, '').replace('\n', ' ').strip()`: the tense name
      (in its exact case only), then every line break, then the surrounding
      whitespace is gone. */
  function Flattened(text: string, key: string): (r: string)
    ensures '\n' !in r
    ensures Trimmed(r)
  {
    var spaced := Replace(Replace(text, key, []), ['\n'], [' ']);
    ReplaceCharRemoves(Replace(text, key, []), '\n', ' ');
    StripChars(spaced);
    StripShape(spaced);
    Strip(spaced)
  }

  /** `any(f" {pr} " in s for pr in pronounces)`, over the pronouns `prs`. */
  predicate MentionsAnyOf(s: string, prs: seq<string>)
  {
    prs != [] && (Contains(s, [' '] + prs[0] + [' ']) || MentionsAnyOf(s, prs[1..]))
  }

  /** `s = s.replace(f" {pr} ", f"\n{pr} ")` for each `pr` of `prs`, in order. */
  function BreakBeforeEach(s: string, prs: seq<string>): string
    decreases |prs|
  {
    if prs == [] then s
    else BreakBeforeEach(Replace(s, [' '] + prs[0] + [' '], ['\n'] + prs[0] + [' ']), prs[1..])
  }

  /** Lines 64-69: with a pronoun present, a line break goes in front of each
      pronoun but the first; otherwise every space becomes a line break. */
  function SplitForms(s: string): string
  {
    if MentionsAnyOf(s, PRONOUNS) then BreakBeforeEach(s, PRONOUNS[1..])
    else Replace(s, [' '], ['\n'])
  }

  /** The `fixed_text` that line 70 appends to the tense's list. */
  function Normalised(text: string, key: string): string
  {
    SplitForms(Flattened(text, key))
  }

  /** The value line 72 stores in the response: `f'\n{fixed_text}'`. */
  function Stored(text: string, key: string): string
  {
    ['\n'] + Normalised(text, key)
  }

  /** Lines 60-69 as the source runs them: `fixed_text` is reassigned once
      per pronoun after the first. */
  method NormaliseBlock(text: string, key: string) returns (fixed: string)
    ensures fixed == Normalised(text, key)
  {
    fixed := Strip(Replace(Replace(text, key, []), ['\n'], [' ']));
    ghost var flat := fixed;
    assert flat == Flattened(text, key);
    if MentionsAnyOf(fixed, PRONOUNS) {
      var rest := PRONOUNS[1..];
      var j := 0;
      while j < |rest|
        invariant 0 <= j <= |rest|
        invariant BreakBeforeEach(fixed, rest[j..]) == BreakBeforeEach(flat, rest)
      {
        var pr := rest[j];
        assert rest[j..][1..] == rest[j + 1..];
        fixed := Replace(fixed, [' '] + pr + [' '], ['\n'] + pr + [' ']);
        j := j + 1;
      }
    } else {
      fixed := Replace(fixed, [' '], ['\n']);
    }
  }

  // ---------------------------------------------------------------------------
  // What the splitting step does to the flattened text
  // ---------------------------------------------------------------------------

  /** A pronoun-like token: non-empty, no space, no line break. */
  predicate Word(p: string)
  {
    p != [] && ' ' !in p && '\n' !in p
  }

  /** `s` holds the word `p` at index `j`, followed by a space or a line break. */
  ghost predicate WordAt(s: string, j: int, p: string)
  {
    0 <= j && j + |p| < |s| && s[j..j + |p|] == p && (s[j + |p|] == ' ' || s[j + |p|] == '\n')
  }

  /** A word that survives turning spaces into line breaks was already there. */
  lemma WordAtBefore(s: string, y: string, j: int, p: string)
    requires SpacesToBreaks(s, y) && Word(p) && WordAt(y, j, p)
    ensures WordAt(s, j, p)
  {
    forall m | j <= m < j + |p| ensures s[m] == y[m] {
      assert y[m] == y[j..j + |p|][m - j] == p[m - j];
      assert y[m] in p;
    }
    assert s[j..j + |p|] == y[j..j + |p|];
  }

  /** Every line break that `BreakBeforeEach` adds replaces a space that was
      followed by one of the pronouns `prs`. */
  lemma {:induction false} BreakBeforeEachShape(s: string, prs: seq<string>)
    requires forall k :: 0 <= k < |prs| ==> Word(prs[k])
    ensures SpacesToBreaks(s, BreakBeforeEach(s, prs))
    ensures forall i :: 0 <= i < |s| && BreakBeforeEach(s, prs)[i] == '\n' && s[i] != '\n' ==>
      s[i] == ' ' && exists k :: 0 <= k < |prs| && WordAt(s, i + 1, prs[k])
    decreases |prs|
  {
    if prs != [] {
      var p := prs[0];
      var w := p + [' '];
      var y := Replace(s, [' '] + w, ['\n'] + w);
      assert [' '] + p + [' '] == [' '] + w && ['\n'] + p + [' '] == ['\n'] + w;
      ReplaceLeadingSpace(s, w);
      BreakBeforeEachShape(y, prs[1..]);
      var r := BreakBeforeEach(s, prs);
      assert r == BreakBeforeEach(y, prs[1..]);
      SpacesToBreaksTrans(s, y, r);
      forall i | 0 <= i < |s| && r[i] == '\n' && s[i] != '\n'
        ensures s[i] == ' ' && exists k :: 0 <= k < |prs| && WordAt(s, i + 1, prs[k])
      {
        if y[i] == '\n' {
          assert s[i + 1..i + 1 + |w|] == w;
          assert s[i + 1..i + 1 + |p|] == w[..|p|] == p;
          assert s[i + 1 + |p|] == w[|p|] == ' ';
          assert WordAt(s, i + 1, prs[0]);
        } else {
          var k :| 0 <= k < |prs[1..]| && WordAt(y, i + 1, prs[1..][k]);
          WordAtBefore(s, y, i + 1, prs[k + 1]);
        }
      }
    }
  }

  lemma PronounsAreWords()
    ensures forall k :: 0 <= k < |PRONOUNS| ==> Word(PRONOUNS[k])
  {
  }

  /** `ich` is the first pronoun and no other. */
  lemma IchOnlyFirst()
    ensures forall k :: 1 <= k < |PRONOUNS| ==> PRONOUNS[k] != "ich"
  {
  }

  /** Splitting only ever turns spaces into line breaks, so the form list is
      exactly as long as the flattened text (lines 64-69). */
  lemma SplitFormsSwapsSpaces(s: string)
    ensures SpacesToBreaks(s, SplitForms(s))
    ensures |SplitForms(s)| == |s|
  {
    if MentionsAnyOf(s, PRONOUNS) {
      PronounsAreWords();
      BreakBeforeEachShape(s, PRONOUNS[1..]);
    } else {
      ReplaceChar(s, ' ', '\n');
    }
  }

  /** Without a pronoun, every space and only a space becomes a line break,
      so no space is left (line 69). */
  lemma SplitFormsWithoutPronoun(s: string)
    requires !MentionsAnyOf(s, PRONOUNS)
    ensures |SplitForms(s)| == |s|
    ensures forall i :: 0 <= i < |s| ==> SplitForms(s)[i] == (if s[i] == ' ' then '\n' else s[i])
    ensures ' ' !in SplitForms(s)
  {
    ReplaceChar(s, ' ', '\n');
    ReplaceCharRemoves(s, ' ', '\n');
  }

  /** With a pronoun present and no line break to begin with, a line break
      appears only where `s` had a space in front of `du`, `er`, `wir`, `ihr`
      or `sie` (lines 64-67). */
  lemma SplitFormsWithPronoun(s: string)
    requires MentionsAnyOf(s, PRONOUNS) && '\n' !in s
    ensures |SplitForms(s)| == |s|
    ensures forall i :: 0 <= i < |s| && SplitForms(s)[i] == '\n' ==>
      s[i] == ' ' && exists k :: 1 <= k < |PRONOUNS| && WordAt(s, i + 1, PRONOUNS[k])
  {
    PronounsAreWords();
    SplitFormsSwapsSpaces(s);
    BreakBeforeEachShape(s, PRONOUNS[1..]);
    forall i | 0 <= i < |s| && SplitForms(s)[i] == '\n'
      ensures s[i] == ' ' && exists k :: 1 <= k < |PRONOUNS| && WordAt(s, i + 1, PRONOUNS[k])
    {
      assert s[i] != '\n' by { assert s[i] in s; }
      var k :| 0 <= k < |PRONOUNS[1..]| && WordAt(s, i + 1, PRONOUNS[1..][k]);
      assert WordAt(s, i + 1, PRONOUNS[k + 1]);
    }
  }

  /** Two different words are never found at the same index. */
  lemma WordAtDistinct(s: string, j: int, p: string, q: string)
    requires Word(p) && Word(q) && p != q && WordAt(s, j, p)
    ensures !WordAt(s, j, q)
  {
    if |q| < |p| {
      assert s[j + |q|] == s[j..j + |p|][|q|] == p[|q|];
      assert p[|q|] in p;
    } else if |p| < |q| {
      assert q[|p|] in q;
      assert s[j + |p|] != q[|p|];
    }
  }

  /** A word after a space and followed by a space occurs with both spaces. */
  lemma SpacedWordOccurs(s: string, j: int, p: string)
    requires 1 <= j && WordAt(s, j, p) && s[j - 1] == ' ' && s[j + |p|] == ' '
    ensures OccursAt(s, [' '] + p + [' '], j - 1)
  {
    var pat := [' '] + p + [' '];
    forall n | 0 <= n < |pat|
      ensures s[j - 1..j + |p| + 1][n] == pat[n]
    {
      if 1 <= n <= |p| {
        assert s[j..j + |p|][n - 1] == p[n - 1];
      }
    }
  }

  /** An `ich` standing as a word after a space, in text without line breaks,
      makes the pronoun test of line 64 succeed. */
  lemma SpacedIchMentions(s: string, j: int)
    requires 1 <= j <= |s| && s[j - 1] == ' ' && '\n' !in s
    ensures WordAt(s, j, "ich") ==> MentionsAnyOf(s, PRONOUNS)
  {
    if WordAt(s, j, "ich") {
      assert s[j + 3] != '\n' by { assert s[j + 3] in s; }
      SpacedWordOccurs(s, j, "ich");
      ContainsAt(s, [' '] + "ich" + [' '], j - 1);
      assert PRONOUNS[0] == "ich";
    }
  }

  /** No line break is put in front of an `ich` that is followed by a space
      (lines 64-69): the pronoun passes have no rule for `ich`, and without a
      pronoun such an `ich` cannot occur, since `" ich "` is itself a pronoun
      match. A final `ich` after a space does get one, by line 69. */
  lemma SplitFormsKeepsIch(s: string, i: int)
    requires '\n' !in s
    requires 0 <= i < |SplitForms(s)| && SplitForms(s)[i] == '\n'
    ensures !WordAt(s, i + 1, "ich")
  {
    if MentionsAnyOf(s, PRONOUNS) {
      SplitFormsWithPronoun(s);
      var k :| 1 <= k < |PRONOUNS| && WordAt(s, i + 1, PRONOUNS[k]);
      PronounsAreWords();
      IchOnlyFirst();
      WordAtDistinct(s, i + 1, PRONOUNS[k], "ich");
    } else {
      SplitFormsWithoutPronoun(s);
      assert s[i] != '\n' by { assert s[i] in s; }
      SpacedIchMentions(s, i + 1);
    }
  }

  /** In the normalised block text, no line break stands in front of an `ich`
      that is followed by a space (lines 59-69). */
  lemma NoBreakBeforeIch(text: string, key: string, i: int)
    requires 0 <= i < |Normalised(text, key)| && Normalised(text, key)[i] == '\n'
    ensures !WordAt(Flattened(text, key), i + 1, "ich")
  {
    SplitFormsKeepsIch(Flattened(text, key), i);
  }

  /** A text with a single space holds no pattern that starts and ends with one. */
  lemma OneSpaceNoSpacedWord(s: string, m: int, pat: string)
    requires forall i :: 0 <= i < |s| && s[i] == ' ' ==> i == m
    requires |pat| >= 2 && pat[0] == ' ' && pat[|pat| - 1] == ' '
    ensures !Contains(s, pat)
  {
    ContainsIff(s, pat);
    forall i | 0 <= i && i + |pat| <= |s|
      ensures !OccursAt(s, pat, i)
    {
      if s[i] == ' ' {
        assert s[i..i + |pat|][|pat| - 1] == s[i + |pat| - 1];
      } else {
        assert s[i..i + |pat|][0] == s[i];
      }
    }
  }

  /** When no pronoun of `prs` stands between spaces, the test of line 64 fails. */
  lemma {:induction false} NoneMentioned(s: string, prs: seq<string>)
    requires forall k :: 0 <= k < |prs| ==> !Contains(s, [' '] + prs[k] + [' '])
    ensures !MentionsAnyOf(s, prs)
    decreases |prs|
  {
    if prs != [] {
      assert forall k :: 0 <= k < |prs[1..]| ==> prs[1..][k] == prs[k + 1];
      NoneMentioned(s, prs[1..]);
    }
  }

  /** No pronoun stands between spaces in `geht ich`. */
  lemma GehtIchWithoutPronoun()
    ensures !MentionsAnyOf("geht ich", PRONOUNS)
  {
    forall k | 0 <= k < |PRONOUNS|
      ensures !Contains("geht ich", [' '] + PRONOUNS[k] + [' '])
    {
      OneSpaceNoSpacedWord("geht ich", 4, [' '] + PRONOUNS[k] + [' ']);
    }
    NoneMentioned("geht ich", PRONOUNS);
  }

  /** The other side of `NoBreakBeforeIch`: a final `ich` with no pronoun
      match around it is split off by line 69. */
  lemma FinalIchSplitOff()
    ensures SplitForms("geht ich") == "geht\nich"
  {
    GehtIchWithoutPronoun();
    SplitFormsWithoutPronoun("geht ich");
  }

  /** The stored value is a line break followed by the split text, which is
      exactly as long as the flattened text (lines 64-72). */
  lemma StoredShape(text: string, key: string)
    ensures |Stored(text, key)| == 1 + |Flattened(text, key)|
    ensures Stored(text, key)[0] == '\n'
    ensures SpacesToBreaks(Flattened(text, key), Stored(text, key)[1..])
  {
    SplitFormsSwapsSpaces(Flattened(text, key));
    assert Stored(text, key)[1..] == Normalised(text, key);
  }

  // ---------------------------------------------------------------------------
  // Examples
  // ---------------------------------------------------------------------------

  /** A block whose heading is in capitals still mentions the tense: the
      test lowers both sides (line 59). */
  lemma CapitalHeadingMentions()
    ensures MentionsTense("PRÄSENS", "Präsens")
  {
    assert Lower("PRÄSENS") == "präsens" == Lower("Präsens");
  }

  /** A one-line, trimmed block that does not hold the tense name in its
      exact case comes through flattening unchanged (lines 59-61). */
  lemma FlattenedUnchanged(text: string, key: string)
    requires key != [] && !Contains(text, key) && '\n' !in text
    requires LStrip(text) == text && RStrip(text) == text
    ensures Flattened(text, key) == text
  {
    ReplaceAbsent(text, key, []);
    ContainsChar(text, '\n');
    ReplaceAbsent(text, ['\n'], [' ']);
  }

  /** Yet the heading is not cut out: `replace` matches the exact case only
      (lines 59-61). */
  lemma CapitalHeadingKept()
    ensures Flattened("PRÄSENS", "Präsens") == "PRÄSENS"
  {
    var s := "PRÄSENS";
    var t := "Präsens";
    ContainsTooLong(s[1..], t);
    assert !(t <= s) by { assert s[1] == 'R' != 'r' == t[1]; }
    FlattenedUnchanged(s, t);
  }
}
