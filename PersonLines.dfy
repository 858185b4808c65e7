/** What the pronoun rewriting of util/bot_tools.py (lines 64-67) does to a
    text made of words and single separators: each `replace(f" {pr} ",
    f"\n{pr} ")` turns the space in front of a free-standing `pr` into a line
    break, and on a conjugation table of the six persons the five passes
    leave exactly one person per line. */
module PersonLines {
  import opened Strings
  import opened VerbformenText

  /** A separator between two words. */
  predicate Sep(c: char)
  {
    c == ' ' || c == '\n'
  }

  /** `toks[0] seps[0] toks[1] ... seps[n - 1] toks[n]`. */
  function Weave(toks: seq<string>, seps: seq<char>): string
    requires |toks| == |seps| + 1
    decreases |seps|
  {
    if seps == [] then toks[0] else toks[0] + ([seps[0]] + Weave(toks[1..], seps[1..]))
  }

  /** The words and separators of a woven text are all proper. */
  ghost predicate WellWoven(toks: seq<string>, seps: seq<char>)
  {
    |toks| == |seps| + 1
    && (forall i :: 0 <= i < |toks| ==> Word(toks[i]))
    && (forall k :: 0 <= k < |seps| ==> Sep(seps[k]))
  }

  /** The separators after one pass `replace(f" {p} ", f"\n{p} ")`, scanning
      left to right: a space in front of `p` that is followed by a space
      becomes a line break, and the scan resumes after that second space. */
  function Marked(toks: seq<string>, seps: seq<char>, p: string): (r: seq<char>)
    requires |toks| == |seps| + 1
    ensures |r| == |seps|
    decreases |seps|
  {
    if seps == [] then []
    else if |seps| >= 2 && seps[0] == ' ' && toks[1] == p && seps[1] == ' '
    then ['\n', ' '] + Marked(toks[2..], seps[2..], p)
    else [seps[0]] + Marked(toks[1..], seps[1..], p)
  }

  /** Text without a space passes through a replacement whose pattern
      starts with a space. */
  lemma {:induction false} ReplacePassWord(w: string, rest: string, pat: string, rep: string)
    requires forall i :: 0 <= i < |w| ==> w[i] != ' '
    requires pat != [] && pat[0] == ' '
    ensures Replace(w + rest, pat, rep) == w + Replace(rest, pat, rep)
    decreases |w|
  {
    if w == [] {
      assert w + rest == rest;
    } else {
      SplitFirst(w, rest);
      ReplaceCopy(w + rest, pat, rep);
      ReplacePassWord(w[1..], rest, pat, rep);
      SplitFirst(w, Replace(rest, pat, rep));
    }
  }

  lemma SplitFirst(w: string, rest: string)
    requires w != []
    ensures (w + rest)[0] == w[0] && (w + rest)[1..] == w[1..] + rest
    ensures w + rest == [w[0]] + (w[1..] + rest)
  {
  }

  lemma TwoFront(c: char, d: char, m: seq<char>)
    ensures ([c, d] + m)[0] == c && ([c, d] + m)[1..] == [d] + m
    ensures ([d] + m)[0] == d && ([d] + m)[1..] == m
  {
  }

  lemma WordNoSpace(w: string)
    requires Word(w)
    ensures forall i :: 0 <= i < |w| ==> w[i] != ' ' && w[i] != '\n'
  {
    assert forall i :: 0 <= i < |w| ==> w[i] in w;
  }

  /** `p` followed by a space is not where another word `t` stands. */
  lemma WordNotPrefix(p: string, t: string, x: string)
    requires Word(p) && Word(t) && p != t
    requires x == [] || Sep(x[0])
    ensures !(p + [' '] <= t + x)
  {
    var q := p + [' '];
    var u := t + x;
    if |p| < |t| {
      assert q[|p|] == ' ';
      assert u[|p|] == t[|p|] && t[|p|] in t;
    } else if |p| == |t| {
      assert q[..|p|] == p && u[..|t|] == t;
    } else {
      assert q[|t|] == p[|t|] && p[|t|] in p;
      assert |u| == |t| || u[|t|] == x[0];
    }
  }

  lemma WellWovenTail(toks: seq<string>, seps: seq<char>, n: int)
    requires WellWoven(toks, seps) && 0 <= n <= |seps|
    ensures WellWoven(toks[n..], seps[n..])
  {
    assert forall i :: 0 <= i < |toks[n..]| ==> toks[n..][i] == toks[i + n];
    assert forall k :: 0 <= k < |seps[n..]| ==> seps[n..][k] == seps[k + n];
  }

  lemma Regroup(a: string, b: string, c: string, d: string)
    ensures a + b + c + d == a + (b + (c + d))
  {
  }

  lemma DropFront(a: string, b: string)
    ensures (a + b)[|a|..] == b
  {
  }

  lemma PrefixAfter(c: char, a: string, b: string)
    ensures ([c] + a <= [c] + b) <==> a <= b
  {
    assert ([c] + a)[1..] == a && ([c] + b)[1..] == b;
  }

  /** Where the scan does not match: the replacement copies one character. */
  lemma ReplaceCopy(s: string, pat: string, rep: string)
    requires pat != [] && s != [] && !(pat <= s)
    ensures Replace(s, pat, rep) == [s[0]] + Replace(s[1..], pat, rep)
  {
  }

  /** Where the scan matches: the pattern is replaced and skipped. */
  lemma ReplaceHit(pat: string, rest: string, rep: string)
    requires pat != []
    ensures Replace(pat + rest, pat, rep) == rep + Replace(rest, pat, rep)
  {
    DropFront(pat, rest);
  }

  /** `Weave` takes its first word and separator off the front. */
  lemma WeaveFront(toks: seq<string>, seps: seq<char>)
    requires |toks| == |seps| + 1 && seps != []
    ensures Weave(toks, seps) == toks[0] + ([seps[0]] + Weave(toks[1..], seps[1..]))
  {
  }

  /** The scan does not match at a separator unless it is a space in front
      of `p` followed by another space. */
  lemma NoMatchAt(toks: seq<string>, seps: seq<char>, p: string)
    requires WellWoven(toks, seps) && Word(p) && seps != []
    requires !(|seps| >= 2 && seps[0] == ' ' && toks[1] == p && seps[1] == ' ')
    ensures !([' '] + p + [' '] <= [seps[0]] + Weave(toks[1..], seps[1..]))
  {
    var pat := [' '] + p + [' '];
    var w1 := Weave(toks[1..], seps[1..]);
    var rest := [seps[0]] + w1;
    if seps[0] == ' ' && toks[1] != p {
      var x := if |seps| >= 2 then [seps[1]] + Weave(toks[2..], seps[2..]) else [];
      if |seps| >= 2 {
        assert toks[1..][1..] == toks[2..] && seps[1..][1..] == seps[2..];
        WeaveFront(toks[1..], seps[1..]);
      } else {
        assert w1 == toks[1] + [];
      }
      WordNotPrefix(p, toks[1], x);
      assert pat == [' '] + (p + [' ']);
      PrefixAfter(' ', p + [' '], w1);
    } else if seps[0] == ' ' && |seps| >= 2 {
      assert toks[1..][1..] == toks[2..] && seps[1..][1..] == seps[2..];
      WeaveFront(toks[1..], seps[1..]);
      assert rest[1 + |p|] == seps[1] && pat[1 + |p|] == ' ';
    } else if seps[0] == ' ' {
      assert w1 == toks[1] == p;
      assert |rest| < |pat|;
    } else {
      assert rest[0] != pat[0];
    }
  }

  /** A matching separator: the pattern is consumed with the space after `p`. */
  lemma MatchStep(toks: seq<string>, seps: seq<char>, p: string)
    requires WellWoven(toks, seps)
    requires |seps| >= 2 && seps[0] == ' ' && toks[1] == p && seps[1] == ' '
    requires Replace(Weave(toks[2..], seps[2..]), [' '] + p + [' '], ['\n'] + p + [' '])
      == Weave(toks[2..], Marked(toks[2..], seps[2..], p))
    ensures Replace(Weave(toks, seps), [' '] + p + [' '], ['\n'] + p + [' '])
      == Weave(toks, Marked(toks, seps, p))
  {
    var pat := [' '] + p + [' '];
    var rep := ['\n'] + p + [' '];
    var w2 := Weave(toks[2..], seps[2..]);
    var m2 := Marked(toks[2..], seps[2..], p);
    assert toks[1..][1..] == toks[2..] && seps[1..][1..] == seps[2..];
    WeaveFront(toks, seps);
    WeaveFront(toks[1..], seps[1..]);
    var rest := [' '] + (p + ([' '] + w2));
    Regroup([' '], p, [' '], w2);
    ReplaceHit(pat, w2, rep);
    WordNoSpace(toks[0]);
    ReplacePassWord(toks[0], rest, pat, rep);
    var m := ['\n', ' '] + m2;
    TwoFront('\n', ' ', m2);
    WeaveFront(toks, m);
    WeaveFront(toks[1..], m[1..]);
    Regroup(['\n'], p, [' '], Weave(toks[2..], m2));
  }

  /** A separator that does not match is copied, and the scan moves on. */
  lemma SkipStep(toks: seq<string>, seps: seq<char>, p: string)
    requires WellWoven(toks, seps) && Word(p) && seps != []
    requires !(|seps| >= 2 && seps[0] == ' ' && toks[1] == p && seps[1] == ' ')
    requires Replace(Weave(toks[1..], seps[1..]), [' '] + p + [' '], ['\n'] + p + [' '])
      == Weave(toks[1..], Marked(toks[1..], seps[1..], p))
    ensures Replace(Weave(toks, seps), [' '] + p + [' '], ['\n'] + p + [' '])
      == Weave(toks, Marked(toks, seps, p))
  {
    var pat := [' '] + p + [' '];
    var rep := ['\n'] + p + [' '];
    var w1 := Weave(toks[1..], seps[1..]);
    var rest := [seps[0]] + w1;
    NoMatchAt(toks, seps, p);
    assert rest[0] == seps[0] && rest[1..] == w1;
    ReplaceCopy(rest, pat, rep);
    WordNoSpace(toks[0]);
    ReplacePassWord(toks[0], rest, pat, rep);
    WeaveFront(toks, seps);
    var m := [seps[0]] + Marked(toks[1..], seps[1..], p);
    assert m[0] == seps[0] && m[1..] == Marked(toks[1..], seps[1..], p);
    WeaveFront(toks, m);
  }

  /** One pass of the rewriting over a woven text changes only its separators,
      the way `Marked` says. */
  lemma {:induction false} ReplaceWeave(toks: seq<string>, seps: seq<char>, p: string)
    requires WellWoven(toks, seps) && Word(p)
    ensures Replace(Weave(toks, seps), [' '] + p + [' '], ['\n'] + p + [' '])
      == Weave(toks, Marked(toks, seps, p))
    decreases |seps|
  {
    var pat := [' '] + p + [' '];
    var rep := ['\n'] + p + [' '];
    if seps == [] {
      WordNoSpace(toks[0]);
      ReplacePassWord(toks[0], [], pat, rep);
      assert toks[0] + [] == toks[0];
    } else if |seps| >= 2 && seps[0] == ' ' && toks[1] == p && seps[1] == ' ' {
      WellWovenTail(toks, seps, 2);
      ReplaceWeave(toks[2..], seps[2..], p);
      MatchStep(toks, seps, p);
    } else {
      WellWovenTail(toks, seps, 1);
      ReplaceWeave(toks[1..], seps[1..], p);
      SkipStep(toks, seps, p);
    }
  }

  /** The separators after the passes for the pronouns `prs`, in order. */
  function MarkedAll(toks: seq<string>, seps: seq<char>, prs: seq<string>): (r: seq<char>)
    requires |toks| == |seps| + 1
    ensures |r| == |seps|
    decreases |prs|
  {
    if prs == [] then seps else MarkedAll(toks, Marked(toks, seps, prs[0]), prs[1..])
  }

  /** A pass only ever writes separators. */
  lemma {:induction false} MarkedSeps(toks: seq<string>, seps: seq<char>, p: string)
    requires WellWoven(toks, seps)
    ensures WellWoven(toks, Marked(toks, seps, p))
    decreases |seps|
  {
    if seps != [] {
      var r := Marked(toks, seps, p);
      if |seps| >= 2 && seps[0] == ' ' && toks[1] == p && seps[1] == ' ' {
        WellWovenTail(toks, seps, 2);
        MarkedSeps(toks[2..], seps[2..], p);
        var m := Marked(toks[2..], seps[2..], p);
        assert forall k :: 2 <= k < |r| ==> r[k] == m[k - 2];
      } else {
        WellWovenTail(toks, seps, 1);
        MarkedSeps(toks[1..], seps[1..], p);
        var m := Marked(toks[1..], seps[1..], p);
        assert forall k :: 1 <= k < |r| ==> r[k] == m[k - 1];
      }
    }
  }

  /** `BreakBeforeEach` over a woven text keeps the words and rewrites the
      separators pass by pass. */
  lemma {:induction false} BreakBeforeEachWeave(toks: seq<string>, seps: seq<char>, prs: seq<string>)
    requires WellWoven(toks, seps) && forall k :: 0 <= k < |prs| ==> Word(prs[k])
    ensures BreakBeforeEach(Weave(toks, seps), prs) == Weave(toks, MarkedAll(toks, seps, prs))
    decreases |prs|
  {
    if prs != [] {
      ReplaceWeave(toks, seps, prs[0]);
      MarkedSeps(toks, seps, prs[0]);
      BreakBeforeEachWeave(toks, Marked(toks, seps, prs[0]), prs[1..]);
    }
  }

  /** No two neighbouring words are both `p`. */
  ghost predicate Apart(toks: seq<string>, p: string)
  {
    forall i :: 0 <= i < |toks| - 1 ==> !(toks[i] == p && toks[i + 1] == p)
  }

  lemma ApartTail(toks: seq<string>, p: string, n: int)
    requires Apart(toks, p) && 0 <= n <= |toks|
    ensures Apart(toks[n..], p)
  {
    assert forall i :: 0 <= i < |toks[n..]| ==> toks[n..][i] == toks[i + n];
  }

  /** When `p` never stands twice in a row, one pass turns separator `k` into
      a line break exactly when it is a space in front of `p` and the
      separator after `p` is a space too; every other separator is kept. */
  lemma {:induction false} MarkedAt(toks: seq<string>, seps: seq<char>, p: string, k: int)
    requires |toks| == |seps| + 1 && Apart(toks, p) && 0 <= k < |seps|
    ensures Marked(toks, seps, p)[k] ==
      if seps[k] == ' ' && toks[k + 1] == p && k + 1 < |seps| && seps[k + 1] == ' ' then '\n' else seps[k]
    decreases |seps|
  {
    if |seps| >= 2 && seps[0] == ' ' && toks[1] == p && seps[1] == ' ' {
      if k >= 2 {
        ApartTail(toks, p, 2);
        MarkedAt(toks[2..], seps[2..], p, k - 2);
        assert toks[2..][k - 1] == toks[k + 1];
      } else if k == 1 {
        assert !(toks[1] == p && toks[2] == p);
      }
    } else if k >= 1 {
      ApartTail(toks, p, 1);
      MarkedAt(toks[1..], seps[1..], p, k - 1);
      assert toks[1..][k] == toks[k + 1];
    }
  }

  // ---------------------------------------------------------------------------
  // Words in which every pronoun is followed by a word that is not one
  // ---------------------------------------------------------------------------

  lemma PronounsDistinct()
    ensures forall i, j :: 0 <= i < j < |PRONOUNS| ==> PRONOUNS[i] != PRONOUNS[j]
  {
  }

  /** Each pronoun in `toks` is followed by a word that is not a pronoun. */
  ghost predicate PersonWords(toks: seq<string>)
  {
    |toks| >= 1
    && (forall i :: 0 <= i < |toks| ==> Word(toks[i]))
    && (forall i :: 0 <= i < |toks| && toks[i] in PRONOUNS ==> i + 1 < |toks| && toks[i + 1] !in PRONOUNS)
  }

  /** A line break in front of each word of `prs`, a space everywhere else. */
  function SepsBefore(toks: seq<string>, prs: seq<string>): (seps: seq<char>)
    requires |toks| >= 1
    ensures |seps| == |toks| - 1
  {
    seq(|toks| - 1, k requires 0 <= k < |toks| - 1 => if toks[k + 1] in prs then '\n' else ' ')
  }

  /** The separators once the passes for `PRONOUNS[1..m + 1]` are done. */
  function PersonSeps(toks: seq<string>, m: int): (seps: seq<char>)
    requires |toks| >= 1 && 0 <= m < |PRONOUNS|
    ensures |seps| == |toks| - 1
  {
    SepsBefore(toks, PRONOUNS[1..m + 1])
  }

  /** The pronouns of the first `m` passes grow by one per pass, and the
      `m`-th pronoun is not among the earlier ones. */
  lemma PronounsStep(m: int)
    requires 1 <= m < |PRONOUNS|
    ensures PRONOUNS[1..m + 1] == PRONOUNS[1..m] + [PRONOUNS[m]]
    ensures PRONOUNS[m] !in PRONOUNS[1..m]
    ensures forall x :: x in PRONOUNS[1..m] ==> x in PRONOUNS
  {
    PronounsDistinct();
  }

  /** A pronoun never stands twice in a row. */
  lemma PersonWordsApart(toks: seq<string>, p: string)
    requires PersonWords(toks) && p in PRONOUNS
    ensures Apart(toks, p)
  {
    forall i | 0 <= i < |toks| - 1 ensures !(toks[i] == p && toks[i + 1] == p) {
      if toks[i] == p {
        assert toks[i + 1] !in PRONOUNS;
      }
    }
  }

  /** The pass for a pronoun `p` not yet done adds the line break in front
      of `p` to those in front of the pronouns `prs`. */
  lemma PassAtCore(toks: seq<string>, prs: seq<string>, p: string, k: int)
    requires PersonWords(toks) && 0 <= k < |toks| - 1
    requires p in PRONOUNS && p !in prs && forall x :: x in prs ==> x in PRONOUNS
    ensures Marked(toks, SepsBefore(toks, prs), p)[k] == SepsBefore(toks, prs + [p])[k]
  {
    var seps := SepsBefore(toks, prs);
    PersonWordsApart(toks, p);
    MarkedAt(toks, seps, p, k);
    var t := toks[k + 1];
    assert t in prs + [p] <==> t in prs || t == p;
    if t == p {
      assert k + 2 < |toks| && toks[k + 2] !in PRONOUNS;
      assert seps[k + 1] == ' ';
    }
  }

  /** Separator `k` after the pass for the `m`-th pronoun, over the
      separators the earlier passes left. */
  lemma PassAt(toks: seq<string>, m: int, k: int)
    requires PersonWords(toks) && 1 <= m < |PRONOUNS| && 0 <= k < |toks| - 1
    ensures Marked(toks, PersonSeps(toks, m - 1), PRONOUNS[m])[k] == PersonSeps(toks, m)[k]
  {
    PronounsStep(m);
    assert PRONOUNS[m] in PRONOUNS;
    PassAtCore(toks, PRONOUNS[1..m], PRONOUNS[m], k);
  }

  /** The pass for the `m`-th pronoun puts the line break in front of it and
      nowhere else. */
  lemma PassStep(toks: seq<string>, m: int)
    requires PersonWords(toks) && 1 <= m < |PRONOUNS|
    ensures Marked(toks, PersonSeps(toks, m - 1), PRONOUNS[m]) == PersonSeps(toks, m)
  {
    forall k | 0 <= k < |toks| - 1
      ensures Marked(toks, PersonSeps(toks, m - 1), PRONOUNS[m])[k] == PersonSeps(toks, m)[k]
    {
      PassAt(toks, m, k);
    }
  }

  /** The remaining passes, from the `m`-th pronoun on, put a line break in
      front of every pronoun but `ich`. */
  lemma {:induction false} AllPasses(toks: seq<string>, m: int)
    requires PersonWords(toks) && 1 <= m <= |PRONOUNS|
    ensures MarkedAll(toks, PersonSeps(toks, m - 1), PRONOUNS[m..]) == PersonSeps(toks, |PRONOUNS| - 1)
    decreases |PRONOUNS| - m
  {
    if m < |PRONOUNS| {
      assert PRONOUNS[m..][0] == PRONOUNS[m] && PRONOUNS[m..][1..] == PRONOUNS[m + 1..];
      PassStep(toks, m);
      AllPasses(toks, m + 1);
    }
  }

  /** On a woven text that takes the pronoun branch, `SplitForms` is the
      passes for `du`, `er`, `wir`, `ihr` and `sie` over its separators. */
  lemma SplitFormsWoven(toks: seq<string>, seps: seq<char>)
    requires WellWoven(toks, seps) && MentionsAnyOf(Weave(toks, seps), PRONOUNS)
    ensures SplitForms(Weave(toks, seps)) == Weave(toks, MarkedAll(toks, seps, PRONOUNS[1..]))
  {
    PronounsAreWords();
    assert forall k :: 0 <= k < |PRONOUNS[1..]| ==> PRONOUNS[1..][k] == PRONOUNS[k + 1];
    BreakBeforeEachWeave(toks, seps, PRONOUNS[1..]);
  }

  // ---------------------------------------------------------------------------
  // A conjugation table of the six persons
  // ---------------------------------------------------------------------------

  /** A form: one or more words, none of them a pronoun, such as `geht`,
      `fange an` or `wasche mich`. */
  ghost predicate Form(ws: seq<string>)
  {
    ws != [] && forall j :: 0 <= j < |ws| ==> Word(ws[j]) && ws[j] !in PRONOUNS
  }

  /** Six forms, one per person. */
  ghost predicate Forms(forms: seq<seq<string>>)
  {
    |forms| == |PRONOUNS| && forall i :: 0 <= i < |forms| ==> Form(forms[i])
  }

  /** The lines the rewriting is meant to produce: `"<pronoun> <form>"`. */
  function Lines(forms: seq<seq<string>>): seq<string>
    requires |forms| == |PRONOUNS|
  {
    seq(|PRONOUNS|, i requires 0 <= i < |PRONOUNS| => PRONOUNS[i] + " " + Join(" ", forms[i]))
  }

  /** The words of the table from the `i`-th person on: each pronoun, then
      the words of its form. */
  function Table(forms: seq<seq<string>>, i: int): seq<string>
    requires |forms| == |PRONOUNS| && 0 <= i <= |PRONOUNS|
    decreases |PRONOUNS| - i
  {
    if i == |PRONOUNS| then [] else [PRONOUNS[i]] + forms[i] + Table(forms, i + 1)
  }

  function Spaces(n: nat): (r: seq<char>)
    ensures |r| == n && forall k :: 0 <= k < n ==> r[k] == ' '
  {
    seq(n, _ => ' ')
  }

  /** The table's separators from the `i`-th person on: a space inside each
      person, `c` between two persons. */
  function TableSeps(forms: seq<seq<string>>, i: int, c: char): (seps: seq<char>)
    requires |forms| == |PRONOUNS| && 0 <= i < |PRONOUNS|
    ensures |seps| == |Table(forms, i)| - 1
    decreases |PRONOUNS| - i
  {
    if i == |PRONOUNS| - 1 then Spaces(|forms[i]|)
    else Spaces(|forms[i]|) + [c] + TableSeps(forms, i + 1, c)
  }

  /** Weaving two texts with `c` between them. */
  lemma {:induction false} WeaveConcat(t1: seq<string>, s1: seq<char>, c: char, t2: seq<string>, s2: seq<char>)
    requires |t1| == |s1| + 1 && |t2| == |s2| + 1
    ensures Weave(t1 + t2, s1 + [c] + s2) == Weave(t1, s1) + [c] + Weave(t2, s2)
    decreases |s1|
  {
    var t, s := t1 + t2, s1 + [c] + s2;
    if s1 == [] {
      assert t[0] == t1[0] && t[1..] == t2 && s[0] == c && s[1..] == s2;
    } else {
      assert t[0] == t1[0] && t[1..] == t1[1..] + t2;
      assert s[0] == s1[0] && s[1..] == s1[1..] + [c] + s2;
      WeaveConcat(t1[1..], s1[1..], c, t2, s2);
    }
  }

  /** Words woven with spaces are the words joined by a space. */
  lemma {:induction false} WeaveSpaces(ws: seq<string>)
    requires ws != []
    ensures Weave(ws, Spaces(|ws| - 1)) == Join(" ", ws)
    decreases |ws|
  {
    if |ws| > 1 {
      assert Spaces(|ws| - 1)[1..] == Spaces(|ws| - 2);
      WeaveSpaces(ws[1..]);
    }
  }

  /** One person woven with spaces is its line. */
  lemma PersonWoven(forms: seq<seq<string>>, i: int)
    requires Forms(forms) && 0 <= i < |PRONOUNS|
    ensures Weave([PRONOUNS[i]] + forms[i], Spaces(|forms[i]|)) == Lines(forms)[i]
  {
    var ws := [PRONOUNS[i]] + forms[i];
    WeaveSpaces(ws);
    assert ws[1..] == forms[i];
  }

  /** The table woven with `c` between persons is its lines joined by `c`. */
  lemma {:induction false} TableJoin(forms: seq<seq<string>>, i: int, c: char)
    requires Forms(forms) && 0 <= i < |PRONOUNS|
    ensures Weave(Table(forms, i), TableSeps(forms, i, c)) == Join([c], Lines(forms)[i..])
    decreases |PRONOUNS| - i
  {
    var person := [PRONOUNS[i]] + forms[i];
    var lines := Lines(forms)[i..];
    PersonWoven(forms, i);
    assert lines[0] == Lines(forms)[i];
    if i == |PRONOUNS| - 1 {
      assert Table(forms, i + 1) == [];
      assert Table(forms, i) == person + [];
      assert TableSeps(forms, i, c) == Spaces(|forms[i]|);
      assert lines == [lines[0]];
      assert Join([c], lines) == lines[0];
      assert Table(forms, i) == person;
      assert Weave(Table(forms, i), TableSeps(forms, i, c)) == lines[0];
    } else {
      assert lines[1..] == Lines(forms)[i + 1..];
      WeaveConcat(person, Spaces(|forms[i]|), c, Table(forms, i + 1), TableSeps(forms, i, c)[|forms[i]| + 1..]);
      assert TableSeps(forms, i, c) == Spaces(|forms[i]|) + [c] + TableSeps(forms, i + 1, c);
      TableJoin(forms, i + 1, c);
    }
  }

  /** The table from the `i`-th person on: that person, then the rest. */
  lemma TableFront(forms: seq<seq<string>>, i: int, c: char)
    requires Forms(forms) && 0 <= i < |PRONOUNS|
    ensures Table(forms, i) == [PRONOUNS[i]] + forms[i] + Table(forms, i + 1)
    ensures i < |PRONOUNS| - 1 ==> TableSeps(forms, i, c) == Spaces(|forms[i]|) + [c] + TableSeps(forms, i + 1, c)
    ensures i < |PRONOUNS| - 1 ==> Table(forms, i + 1)[0] == PRONOUNS[i + 1]
    ensures i == |PRONOUNS| - 1 ==> TableSeps(forms, i, c) == Spaces(|forms[i]|)
  {
  }

  /** The words after the pronoun `ich` are the later pronouns and the form words. */
  lemma LaterPronouns()
    ensures forall x :: x in PRONOUNS[1..] ==> x in PRONOUNS
    ensures forall j :: 1 <= j < |PRONOUNS| ==> PRONOUNS[j] in PRONOUNS[1..]
  {
    assert forall j :: 1 <= j < |PRONOUNS| ==> PRONOUNS[1..][j - 1] == PRONOUNS[j];
  }

  /** Indexing the separators of one person followed by the rest. */
  lemma SepsCase(n: nat, c: char, rest: seq<char>, k: int)
    requires 0 <= k < n + 1 + |rest|
    ensures (Spaces(n) + [c] + rest)[k] == if k < n then ' ' else if k == n then c else rest[k - n - 1]
  {
  }

  /** Indexing the words after one person's pronoun. */
  lemma TokCase(p: string, f: seq<string>, rest: seq<string>, k: int)
    requires 0 <= k < |f| + |rest|
    ensures ([p] + f + rest)[k + 1] == if k < |f| then f[k] else rest[k - |f|]
  {
  }

  /** Separator `k` of the table is `c` exactly in front of a pronoun. */
  lemma {:induction false} TableSepsAt(forms: seq<seq<string>>, i: int, c: char, k: int)
    requires Forms(forms) && 0 <= i < |PRONOUNS| && 0 <= k < |TableSeps(forms, i, c)|
    ensures TableSeps(forms, i, c)[k] == if Table(forms, i)[k + 1] in PRONOUNS[1..] then c else ' '
    decreases |PRONOUNS| - i
  {
    var n := |forms[i]|;
    TableFront(forms, i, c);
    LaterPronouns();
    TokCase(PRONOUNS[i], forms[i], Table(forms, i + 1), k);
    if i < |PRONOUNS| - 1 {
      SepsCase(n, c, TableSeps(forms, i + 1, c), k);
      if k > n {
        TableSepsAt(forms, i + 1, c, k - n - 1);
      }
    }
    if k < n {
      assert forms[i][k] !in PRONOUNS;
    }
  }

  /** In the table every pronoun is followed by a word of its form. */
  lemma {:induction false} TablePersonWords(forms: seq<seq<string>>, i: int)
    requires Forms(forms) && 0 <= i < |PRONOUNS|
    ensures PersonWords(Table(forms, i))
    decreases |PRONOUNS| - i
  {
    var toks, f := Table(forms, i), forms[i];
    var rest := Table(forms, i + 1);
    TableFront(forms, i, ' ');
    PronounsAreWords();
    assert PRONOUNS[i] in PRONOUNS;
    if i + 1 < |PRONOUNS| {
      TablePersonWords(forms, i + 1);
    }
    forall j | 0 <= j < |toks|
      ensures Word(toks[j])
      ensures toks[j] in PRONOUNS ==> j + 1 < |toks| && toks[j + 1] !in PRONOUNS
    {
      if j == 0 {
        TokCase(PRONOUNS[i], f, rest, 0);
      } else {
        TokCase(PRONOUNS[i], f, rest, j - 1);
        if j + 1 < |toks| {
          TokCase(PRONOUNS[i], f, rest, j);
        }
      }
    }
  }

  /** The table on one line is the table woven with spaces. */
  lemma TableOneLine(forms: seq<seq<string>>)
    requires Forms(forms)
    ensures |Table(forms, 0)| >= 1
    ensures Join(" ", Lines(forms)) == Weave(Table(forms, 0), PersonSeps(Table(forms, 0), 0))
  {
    var toks := Table(forms, 0);
    TablePersonWords(forms, 0);
    TableJoin(forms, 0, ' ');
    assert Lines(forms)[0..] == Lines(forms);
    var seps := TableSeps(forms, 0, ' ');
    forall k | 0 <= k < |seps| ensures seps[k] == PersonSeps(toks, 0)[k] {
      TableSepsAt(forms, 0, ' ', k);
    }
    assert seps == PersonSeps(toks, 0);
  }

  /** The table one person per line is the table woven with all passes done. */
  lemma TableLines(forms: seq<seq<string>>)
    requires Forms(forms)
    ensures |Table(forms, 0)| >= 1
    ensures Join("\n", Lines(forms)) == Weave(Table(forms, 0), PersonSeps(Table(forms, 0), |PRONOUNS| - 1))
  {
    var toks := Table(forms, 0);
    TablePersonWords(forms, 0);
    TableJoin(forms, 0, '\n');
    assert Lines(forms)[0..] == Lines(forms);
    var seps := TableSeps(forms, 0, '\n');
    assert PRONOUNS[1..|PRONOUNS|] == PRONOUNS[1..];
    forall k | 0 <= k < |seps| ensures seps[k] == PersonSeps(toks, |PRONOUNS| - 1)[k] {
      TableSepsAt(forms, 0, '\n', k);
    }
    assert seps == PersonSeps(toks, |PRONOUNS| - 1);
  }

  lemma InfixRegroup(a: string, p: string, f: string, j: string)
    ensures a + " " + (p + " " + f + " " + j) == a + ([' '] + p + [' ']) + (f + (" " + j))
  {
  }

  /** The table mentions `du` between spaces, so the pronoun branch is taken. */
  lemma TableMentionsPronoun(forms: seq<seq<string>>)
    requires Forms(forms)
    ensures MentionsAnyOf(Join(" ", Lines(forms)), PRONOUNS)
  {
    var lines := Lines(forms);
    var s := Join(" ", lines);
    var f := Join(" ", forms[1]);
    assert lines[1..][0] == "du" + " " + f;
    var j := Join(" ", lines[1..][1..]);
    assert s == lines[0] + " " + Join(" ", lines[1..]);
    assert Join(" ", lines[1..]) == lines[1..][0] + " " + j;
    assert s == lines[0] + " " + ("du" + " " + f + " " + j);
    InfixRegroup(lines[0], "du", f, j);
    ContainsInfix(lines[0], [' '] + "du" + [' '], f + (" " + j));
    assert PRONOUNS[1..][0] == "du";
    assert MentionsAnyOf(s, PRONOUNS[1..]);
  }

  /** A conjugation table `ich f0 du f1 er f2 wir f3 ihr f4 sie f5` on one
      line, each form one or more words that are not pronouns, is split into
      one line per person: a line break goes in front of each pronoun but
      `ich`, and the spaces inside each person stay (lines 64-67). */
  lemma OneLinePerPerson(forms: seq<seq<string>>)
    requires Forms(forms)
    ensures SplitForms(Join(" ", Lines(forms))) == Join("\n", Lines(forms))
  {
    var toks := Table(forms, 0);
    TableOneLine(forms);
    TableLines(forms);
    TablePersonWords(forms, 0);
    TableMentionsPronoun(forms);
    SplitFormsWoven(toks, PersonSeps(toks, 0));
    AllPasses(toks, 1);
  }

  /** A separable verb such as `anfangen`: the six persons `ich fange an`,
      `du fängst an`, ..., `sie fangen an` on one line are split one person
      per line, the particle staying with each form. */
  lemma SeparableVerb(stems: seq<string>, particle: string)
    requires |stems| == |PRONOUNS| && Word(particle) && particle !in PRONOUNS
    requires forall i :: 0 <= i < |stems| ==> Word(stems[i]) && stems[i] !in PRONOUNS
    ensures var lines := seq(|PRONOUNS|, i requires 0 <= i < |PRONOUNS| => PRONOUNS[i] + " " + stems[i] + " " + particle);
      SplitForms(Join(" ", lines)) == Join("\n", lines)
  {
    var forms := seq(|PRONOUNS|, i requires 0 <= i < |PRONOUNS| => [stems[i], particle]);
    assert Forms(forms);
    var lines := seq(|PRONOUNS|, i requires 0 <= i < |PRONOUNS| => PRONOUNS[i] + " " + stems[i] + " " + particle);
    forall i | 0 <= i < |PRONOUNS|
      ensures Lines(forms)[i] == lines[i]
    {
      var f := forms[i];
      assert f[1..] == [particle];
      assert Join(" ", f) == stems[i] + " " + particle;
    }
    assert Lines(forms) == lines;
    OneLinePerPerson(forms);
  }

  /** Joining texts without `c` by a separator without `c` gives no `c`. */
  lemma {:induction false} JoinWithout(sep: string, xs: seq<string>, c: char)
    requires c !in sep && forall i :: 0 <= i < |xs| ==> c !in xs[i]
    ensures c !in Join(sep, xs)
    decreases |xs|
  {
    if |xs| > 1 {
      JoinWithout(sep, xs[1..], c);
    }
  }

  /** A join ends with the last character of its last item. */
  lemma JoinLast(sep: string, xs: seq<string>)
    requires xs != [] && xs[|xs| - 1] != []
    ensures Join(sep, xs) != [] && Join(sep, xs)[|Join(sep, xs)| - 1] == xs[|xs| - 1][|xs[|xs| - 1]| - 1]
  {
    var n := |xs|;
    assert xs[..n - 1] + [xs[n - 1]] == xs;
    JoinSnoc(sep, xs[..n - 1], xs[n - 1]);
  }

  /** No line of the table holds a line break. */
  lemma LinesWithoutBreaks(forms: seq<seq<string>>)
    requires Forms(forms)
    ensures forall i :: 0 <= i < |Lines(forms)| ==> '\n' !in Lines(forms)[i]
  {
    PronounsAreWords();
    forall i | 0 <= i < |PRONOUNS| ensures '\n' !in Lines(forms)[i] {
      JoinWithout(" ", forms[i], '\n');
    }
  }

  /** The table on one line starts with `ich` and ends with the last
      character of the last form, neither of them whitespace. */
  lemma OneLineTrimmed(forms: seq<seq<string>>)
    requires Forms(forms)
    requires forall i, j, k :: 0 <= i < |forms| && 0 <= j < |forms[i]| && 0 <= k < |forms[i][j]| ==> !IsSpace(forms[i][j][k])
    ensures Trimmed(Join(" ", Lines(forms)))
  {
    var lines := Lines(forms);
    var n := |lines|;
    var s := Join(" ", lines);
    assert s == lines[0] + " " + Join(" ", lines[1..]);
    assert lines[0] == "ich" + " " + Join(" ", forms[0]);
    var ws := forms[n - 1];
    var w := ws[|ws| - 1];
    JoinLast(" ", ws);
    var f := Join(" ", ws);
    assert lines[n - 1] == PRONOUNS[n - 1] + " " + f;
    JoinLast(" ", lines);
    assert s[|s| - 1] == f[|f| - 1] == w[|w| - 1];
  }

  /** A whole block as the page gives it, the tense name on the first line
      and one person per line below it, is stored one person per line: the
      tense name is cut out, the block is flattened and trimmed, and the
      pronoun pass puts each person back on a line of its own (lines 59-72). */
  lemma TableBlockStored(key: string, forms: seq<seq<string>>)
    requires Forms(forms) && key != []
    requires forall i, j, k :: 0 <= i < |forms| && 0 <= j < |forms[i]| && 0 <= k < |forms[i][j]| ==> !IsSpace(forms[i][j][k])
    requires !Contains("\n" + Join("\n", Lines(forms)), key)
    ensures Stored(key + "\n" + Join("\n", Lines(forms)), key) == "\n" + Join("\n", Lines(forms))
  {
    var lines := Lines(forms);
    var broken, spaced := Join("\n", lines), Join(" ", lines);
    assert key + "\n" + broken == key + ("\n" + broken);
    ReplaceHit(key, "\n" + broken, []);
    ReplaceAbsent("\n" + broken, key, []);
    assert Replace(key + "\n" + broken, key, []) == "\n" + broken;
    LinesWithoutBreaks(forms);
    JoinReplaceSep(lines, '\n', ' ');
    ReplaceCharConcat("\n", broken, '\n', ' ');
    assert Replace("\n", "\n", " ") == " ";
    OneLineTrimmed(forms);
    StripSpaces(" ", spaced);
    assert Flattened(key + "\n" + broken, key) == spaced;
    OneLinePerPerson(forms);
  }
}
