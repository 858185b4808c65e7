/** The conjugation scraper of util/bot_tools.py: the module-level tense
    lists, the response object with its emptiness test and its text layout,
    the page parser and the lookup URL.

    A fetched page is given as the data the parser reads from it: the texts
    of the `div.vTbl` blocks in document order, and for each language code
    the texts of the element children of the first `div[lang=...]`, absent
    when the page has no such container. */
module BotTools {
  import opened Opt
  import opened Strings
  import opened OrderedMaps
  import opened VerbformenText

  const BASE_URL: string := "https://www.verbformen.de/konjugation"

  /** The keys of the module-level `konjugation` dict, in order (lines 8-16). */
  const TENSES: seq<string> := ["Präsens", "Präteritum", "Partizip"]

  /** The translation languages, in order (lines 18-21). */
  const LANGUAGES: seq<string> := ["en", "ru"]

  /** The separator rule `'-' * 30` (line 45). */
  const RULE: string := "------------------------------"

  datatype Page = Page(blocks: seq<string>, containers: map<string, seq<string>>)

  /** What the HTTP request gave back: a page (`resp.ok`) or a failure status. */
  datatype Reply = Fetched(page: Page) | Failed(status: int)

  // ===========================================================================
  // Tense extraction (lines 56-72), as a specification
  // ===========================================================================

  /** One block, matched against the tense keys `keys` in order. `acc` is the
      response's tense dict so far; `pre` holds the tenses whose module-level
      list was already non-empty when the call began. */
  function ScanBlock(text: string, keys: seq<string>, acc: Dict<string, string>, pre: set<string>)
    : Dict<string, string>
    decreases |keys|
  {
    if keys == [] then acc
    else
      var key := keys[0];
      var acc' := if MentionsTense(text, key) && key !in pre && Get(acc, key).None?
                  then Put(acc, key, Stored(text, key)) else acc;
      ScanBlock(text, keys[1..], acc', pre)
  }

  /** The response's tense dict after the blocks `blocks`, in document order. */
  function ScanTenses(blocks: seq<string>, keys: seq<string>, pre: set<string>): Dict<string, string>
  {
    if blocks == [] then []
    else ScanBlock(blocks[|blocks| - 1], keys, ScanTenses(blocks[..|blocks| - 1], keys, pre), pre)
  }

  /** Block `i` is the first block of `blocks` that mentions `key`. */
  ghost predicate FirstMention(blocks: seq<string>, key: string, i: int)
  {
    0 <= i < |blocks| && MentionsTense(blocks[i], key)
    && forall j :: 0 <= j < i ==> !MentionsTense(blocks[j], key)
  }

  lemma {:induction false} ScanBlockGet(text: string, keys: seq<string>, acc: Dict<string, string>,
                                        pre: set<string>, key: string)
    ensures Get(ScanBlock(text, keys, acc, pre), key) ==
      if Get(acc, key).Some? then Get(acc, key)
      else if key in keys && key !in pre && MentionsTense(text, key) then Some(Stored(text, key))
      else None
    decreases |keys|
  {
    if keys != [] {
      var k := keys[0];
      var acc' := if MentionsTense(text, k) && k !in pre && Get(acc, k).None?
                  then Put(acc, k, Stored(text, k)) else acc;
      PutGet(acc, k, Stored(text, k), key);
      ScanBlockGet(text, keys[1..], acc', pre, key);
      assert key in keys <==> key == k || key in keys[1..];
    }
  }

  /** No block of `blocks` mentions `key`. */
  ghost predicate NoMention(blocks: seq<string>, key: string)
  {
    forall i :: 0 <= i < |blocks| ==> !MentionsTense(blocks[i], key)
  }

  lemma NoMentionSnoc(blocks: seq<string>, key: string)
    requires blocks != []
    ensures NoMention(blocks, key) <==>
      NoMention(blocks[..|blocks| - 1], key) && !MentionsTense(blocks[|blocks| - 1], key)
  {
    var n := |blocks| - 1;
    assert forall i :: 0 <= i < n ==> blocks[..n][i] == blocks[i];
  }

  /** A tense stays out of the result exactly when it was filled on entry,
      is not a tense key, or no block mentions it. */
  lemma {:induction false} ScanTensesMissing(blocks: seq<string>, keys: seq<string>, pre: set<string>,
                                             key: string)
    ensures Get(ScanTenses(blocks, keys, pre), key).None? <==>
      key !in keys || key in pre || NoMention(blocks, key)
  {
    if blocks != [] {
      var n := |blocks| - 1;
      var d := ScanTenses(blocks[..n], keys, pre);
      ScanTensesMissing(blocks[..n], keys, pre, key);
      ScanBlockGet(blocks[n], keys, d, pre, key);
      NoMentionSnoc(blocks, key);
    }
  }

  /** First match wins: the value of a tense comes from the first block that
      mentions it; later blocks never change it (lines 56-72). */
  lemma {:induction false} FirstMentionWins(blocks: seq<string>, keys: seq<string>, pre: set<string>,
                                            key: string, i: int)
    requires FirstMention(blocks, key, i) && key in keys && key !in pre
    ensures Get(ScanTenses(blocks, keys, pre), key) == Some(Stored(blocks[i], key))
  {
    var n := |blocks| - 1;
    var init := blocks[..n];
    var d := ScanTenses(init, keys, pre);
    ScanBlockGet(blocks[n], keys, d, pre, key);
    if i < n {
      assert FirstMention(init, key, i) by {
        assert forall j :: 0 <= j <= i ==> init[j] == blocks[j];
      }
      FirstMentionWins(init, keys, pre, key, i);
    } else {
      assert NoMention(init, key) by {
        assert forall j :: 0 <= j < n ==> init[j] == blocks[j];
      }
      ScanTensesMissing(init, keys, pre, key);
    }
  }

  lemma {:induction false} ScanBlockKeys(text: string, keys: seq<string>, acc: Dict<string, string>,
                                         pre: set<string>, all: seq<string>)
    requires DistinctKeys(acc)
    requires forall k :: k in Keys(acc) ==> k in all
    requires forall k :: k in keys ==> k in all
    ensures DistinctKeys(ScanBlock(text, keys, acc, pre))
    ensures forall k :: k in Keys(ScanBlock(text, keys, acc, pre)) ==> k in all
    decreases |keys|
  {
    if keys != [] {
      var k := keys[0];
      PutDistinct(acc, k, Stored(text, k));
      PutKeys(acc, k, Stored(text, k));
      ScanBlockKeys(text, keys[1..], if MentionsTense(text, k) && k !in pre && Get(acc, k).None?
                  then Put(acc, k, Stored(text, k)) else acc, pre, all);
    }
  }

  /** Each tense is filled at most once: the tense dict never holds a key twice,
      and only tense keys occur in it. */
  lemma {:induction false} ScanTensesKeys(blocks: seq<string>, keys: seq<string>, pre: set<string>)
    ensures DistinctKeys(ScanTenses(blocks, keys, pre))
    ensures forall k :: k in Keys(ScanTenses(blocks, keys, pre)) ==> k in keys
  {
    if blocks != [] {
      ScanTensesKeys(blocks[..|blocks| - 1], keys, pre);
      ScanBlockKeys(blocks[|blocks| - 1], keys, ScanTenses(blocks[..|blocks| - 1], keys, pre), pre, keys);
    }
  }

  /** One block can fill several tenses: each key is matched against the
      whole block text (lines 58-59), so a block naming both the present and
      the past tense supplies both. */
  lemma OneBlockSeveralTenses()
    ensures var text := ("Präsens" + " ") + "Präteritum";
      Get(ScanTenses([text], TENSES, {}), "Präsens") == Some(Stored(text, "Präsens")) &&
      Get(ScanTenses([text], TENSES, {}), "Präteritum") == Some(Stored(text, "Präteritum"))
  {
    var first := "Präsens" + " ";
    var text := first + "Präteritum";
    LowerConcat(first, "Präteritum");
    LowerConcat("Präsens", " ");
    assert Contains(Lower(first), Lower("Präsens")) by {
      assert Lower("Präsens") <= Lower(first);
    }
    ContainsLeft(Lower(first), Lower("Präteritum"), Lower("Präsens"));
    assert Contains(Lower("Präteritum"), Lower("Präteritum"));
    ContainsRight(Lower(first), Lower("Präteritum"), Lower("Präteritum"));
    FirstMentionWins([text], TENSES, {}, "Präsens", 0);
    FirstMentionWins([text], TENSES, {}, "Präteritum", 0);
  }

  // ===========================================================================
  // Translation collection (lines 75-85), as a specification
  // ===========================================================================

  /** The `words` set for one container's children, child by child (lines 77-82). */
  function WordSet(children: seq<string>): set<string>
  {
    if children == [] then {}
    else
      var text := Strip(children[|children| - 1]);
      WordSet(children[..|children| - 1]) + (if |text| > 2 then {text} else {})
  }

  /** The translations dict: languages in order, stopping at the first one
      whose container is missing, since iterating over `None` raises and the
      one `try` around the loop ends it (lines 75-85). */
  function CollectTranslations(langs: seq<string>, containers: map<string, seq<string>>)
    : Dict<string, set<string>>
  {
    if langs == [] || langs[0] !in containers then []
    else [(langs[0], WordSet(containers[langs[0]]))] + CollectTranslations(langs[1..], containers)
  }

  /** Some child of `children` strips to `w`, and `w` is longer than two characters. */
  ghost predicate KeptFrom(children: seq<string>, w: string)
  {
    |w| > 2 && exists i :: 0 <= i < |children| && Strip(children[i]) == w
  }

  /** A word is kept exactly when it is the stripped text of some child and
      longer than two characters (lines 78-82). */
  lemma {:induction false} WordSetMembers(children: seq<string>, w: string)
    ensures w in WordSet(children) <==> KeptFrom(children, w)
  {
    if children != [] {
      var n := |children| - 1;
      var init := children[..n];
      WordSetMembers(init, w);
      if KeptFrom(children, w) {
        var i :| 0 <= i < |children| && Strip(children[i]) == w;
        if i < n {
          assert Strip(init[i]) == w;
        }
      }
      if KeptFrom(init, w) {
        var i :| 0 <= i < |init| && Strip(init[i]) == w;
        assert Strip(children[i]) == w;
      }
    }
  }

  /** Every kept word is stripped and longer than two characters. */
  lemma WordSetWordsStripped(children: seq<string>, w: string)
    requires w in WordSet(children)
    ensures |w| > 2 && Strip(w) == w
  {
    WordSetMembers(children, w);
    var i :| 0 <= i < |children| && Strip(children[i]) == w;
    StripIdempotent(children[i]);
  }

  /** The recorded languages are the longest prefix of `langs` whose
      containers are all present, each with its own word set; the first
      missing container stops the collection. */
  lemma {:induction false} TranslationsStopAtMissing(langs: seq<string>, containers: map<string, seq<string>>)
    ensures |CollectTranslations(langs, containers)| <= |langs|
    ensures Keys(CollectTranslations(langs, containers)) == langs[..|CollectTranslations(langs, containers)|]
    ensures forall j :: 0 <= j < |CollectTranslations(langs, containers)| ==>
      langs[j] in containers && CollectTranslations(langs, containers)[j].1 == WordSet(containers[langs[j]])
    ensures |CollectTranslations(langs, containers)| < |langs| ==>
      langs[|CollectTranslations(langs, containers)|] !in containers
  {
    if langs != [] && langs[0] in containers {
      var r := CollectTranslations(langs, containers);
      var t := CollectTranslations(langs[1..], containers);
      TranslationsStopAtMissing(langs[1..], containers);
      assert r == [(langs[0], WordSet(containers[langs[0]]))] + t;
      assert Keys(r) == [langs[0]] + Keys(t);
      assert langs[..|r|] == [langs[0]] + langs[1..][..|t|];
      forall j | 0 < j < |r| ensures langs[j] in containers && r[j].1 == WordSet(containers[langs[j]]) {
        assert r[j] == t[j - 1] && langs[j] == langs[1..][j - 1];
      }
    }
  }

  // ===========================================================================
  // The module-level `konjugation` dict of lists (lines 8-16)
  // ===========================================================================

  class TenseStore {
    var lists: map<string, seq<string>>

    ghost predicate Valid()
      reads this
    {
      forall k :: k in lists <==> k in TENSES
    }

    /** Every list is empty, as at start-up. */
    predicate AllClear()
      reads this
    {
      forall k :: k in lists ==> lists[k] == []
    }

    /** The tenses whose list is not empty: none exactly when all lists are
        clear, so a call that starts from clear lists has nothing filled. */
    function Filled(): (f: set<string>)
      reads this
      ensures AllClear() <==> f == {}
    {
      var f := set k | k in lists && lists[k] != [];
      assert !AllClear() ==> exists k :: k in lists && lists[k] != [] && k in f;
      f
    }

    constructor ()
      ensures Valid() && AllClear()
    {
      lists := map["Präsens" := [], "Präteritum" := [], "Partizip" := []];
    }

    /** `for v in konjugation.values(): v.clear()` (lines 86-87). */
    method ClearAll()
      requires Valid()
      modifies this
      ensures Valid() && AllClear()
    {
      var t := 0;
      while t < |TENSES|
        invariant 0 <= t <= |TENSES|
        invariant Valid()
        invariant forall j :: 0 <= j < t ==> lists[TENSES[j]] == []
      {
        lists := lists[TENSES[t] := []];
        t := t + 1;
      }
    }
  }

  // ===========================================================================
  // The response (lines 33-49)
  // ===========================================================================

  /** `xs` lists the elements of `s`, each once: one order in which Python may
      iterate over the set. */
  ghost predicate Enumerates(xs: seq<string>, s: set<string>)
  {
    |xs| == |s| && (forall x :: x in xs <==> x in s) && forall i, j :: 0 <= i < j < |xs| ==> xs[i] != xs[j]
  }

  /** `f"*{k}*:{v}\n" + '-' * 30 + '\n'` (lines 44-45). */
  function TenseSection(k: string, v: string): string
  {
    "*" + k + "*:" + v + "\n" + RULE + "\n"
  }

  /** `f"*{k}*: {', '.join(v)}\n"` (line 48), for one iteration order of `v`. */
  function LanguageLine(k: string, words: seq<string>): string
  {
    "*" + k + "*: " + Join(", ", words) + "\n"
  }

  function TenseSections(d: Dict<string, string>): string
  {
    if d == [] then [] else TenseSections(d[..|d| - 1]) + TenseSection(d[|d| - 1].0, d[|d| - 1].1)
  }

  /** The language lines, with `orders[i]` the iteration order of the i-th set. */
  function LanguageLines(d: Dict<string, set<string>>, orders: seq<seq<string>>): string
    requires |orders| == |d|
  {
    if d == [] then []
    else LanguageLines(d[..|d| - 1], orders[..|d| - 1]) + LanguageLine(d[|d| - 1].0, orders[|d| - 1])
  }

  /** The layout of `to_string` (lines 41-49), with `orders[i]` the order in
      which the i-th translation set is iterated. */
  function Rendered(konjugation: Dict<string, string>, translations: Dict<string, set<string>>,
                    orders: seq<seq<string>>): string
    requires |orders| == |translations|
  {
    "Einfache Verbformen:\n" + TenseSections(konjugation) + "Übersetzungen:\n"
    + LanguageLines(translations, orders)
  }

  /** Iterating over a set: some order of its elements, each once. */
  method IterationOrder(s: set<string>) returns (xs: seq<string>)
    ensures Enumerates(xs, s)
  {
    xs := [];
    var rest := s;
    while rest != {}
      invariant forall x :: x in s <==> x in xs || x in rest
      invariant forall x :: x in xs ==> x !in rest
      invariant forall i, j :: 0 <= i < j < |xs| ==> xs[i] != xs[j]
      invariant |xs| + |rest| == |s|
      decreases |rest|
    {
      var x :| x in rest;
      xs := xs + [x];
      rest := rest - {x};
    }
  }

  class VerbformenResponse {
    var konjugation: Dict<string, string>
    /** The translations; the source names this field `transactions`. */
    var transactions: Dict<string, set<string>>

    constructor ()
      ensures konjugation == [] && transactions == []
    {
      konjugation := [];
      transactions := [];
    }

    /** `is_empty` (line 39). */
    predicate IsEmpty()
      reads this
    {
      |konjugation| == 0 || |transactions| == 0
    }

    /** `to_string` (lines 41-49): `orders` gives the order in which each
        translation set was iterated. */
    method ToString() returns (result: string, orders: seq<seq<string>>)
      ensures |orders| == |transactions|
      ensures forall i :: 0 <= i < |orders| ==> Enumerates(orders[i], transactions[i].1)
      ensures result == Rendered(konjugation, transactions, orders)
    {
      var konj, trans := konjugation, transactions;
      result := "Einfache Verbformen:\n";
      var i := 0;
      while i < |konj|
        invariant 0 <= i <= |konj|
        invariant result == "Einfache Verbformen:\n" + TenseSections(konj[..i])
      {
        TenseSectionsStep("Einfache Verbformen:\n", konj, i);
        // lines 44-45, both `+=` at once
        result := result + TenseSection(konj[i].0, konj[i].1);
        i := i + 1;
      }
      assert konj[..i] == konj;
      result := result + "Übersetzungen:\n";
      ghost var head := result;
      orders := [];
      i := 0;
      while i < |trans|
        invariant 0 <= i <= |trans|
        invariant |orders| == i
        invariant forall j :: 0 <= j < i ==> Enumerates(orders[j], trans[j].1)
        invariant result == head + LanguageLines(trans[..i], orders)
      {
        var words := IterationOrder(trans[i].1);
        LanguageLinesStep(head, trans, orders, words, i);
        result := result + LanguageLine(trans[i].0, words);
        orders := orders + [words];
        i := i + 1;
      }
      assert trans[..i] == trans;
    }
  }

  lemma TenseSectionsStep(h: string, d: Dict<string, string>, i: int)
    requires 0 <= i < |d|
    ensures h + TenseSections(d[..i + 1]) == h + TenseSections(d[..i]) + TenseSection(d[i].0, d[i].1)
  {
    assert d[..i + 1][..i] == d[..i];
  }

  lemma LanguageLinesStep(h: string, d: Dict<string, set<string>>, orders: seq<seq<string>>,
                          words: seq<string>, i: int)
    requires 0 <= i < |d| && |orders| == i
    ensures h + LanguageLines(d[..i + 1], orders + [words])
      == h + LanguageLines(d[..i], orders) + LanguageLine(d[i].0, words)
  {
    assert d[..i + 1][..i] == d[..i];
    assert (orders + [words])[..i] == orders;
  }

  /** Every tense section is part of the rendered text, in one piece. */
  lemma TenseSectionRendered(konjugation: Dict<string, string>, translations: Dict<string, set<string>>,
                             orders: seq<seq<string>>, i: int)
    requires |orders| == |translations| && 0 <= i < |konjugation|
    ensures Contains(Rendered(konjugation, translations, orders), TenseSection(konjugation[i].0, konjugation[i].1))
  {
    var x := TenseSection(konjugation[i].0, konjugation[i].1);
    var a, b := SectionsSplit(konjugation, i);
    ContainsInfix(a, x, b);
    ContainsRight("Einfache Verbformen:\n", TenseSections(konjugation), x);
    ContainsLeft("Einfache Verbformen:\n" + TenseSections(konjugation), "Übersetzungen:\n", x);
    ContainsLeft("Einfache Verbformen:\n" + TenseSections(konjugation) + "Übersetzungen:\n",
                 LanguageLines(translations, orders), x);
  }

  /** Every language line is part of the rendered text, in one piece. */
  lemma LanguageLineRendered(konjugation: Dict<string, string>, translations: Dict<string, set<string>>,
                             orders: seq<seq<string>>, i: int)
    requires |orders| == |translations| && 0 <= i < |translations|
    ensures Contains(Rendered(konjugation, translations, orders), LanguageLine(translations[i].0, orders[i]))
  {
    var x := LanguageLine(translations[i].0, orders[i]);
    var a, b := LinesSplit(translations, orders, i);
    ContainsInfix(a, x, b);
    ContainsRight("Einfache Verbformen:\n" + TenseSections(konjugation) + "Übersetzungen:\n",
                  LanguageLines(translations, orders), x);
  }

  lemma {:induction false} SectionsSplit(d: Dict<string, string>, i: int) returns (a: string, b: string)
    requires 0 <= i < |d|
    ensures TenseSections(d) == a + TenseSection(d[i].0, d[i].1) + b
    decreases |d|
  {
    var n := |d| - 1;
    if i == n {
      a, b := TenseSections(d[..n]), [];
    } else {
      a, b := SectionsSplit(d[..n], i);
      b := b + TenseSection(d[n].0, d[n].1);
    }
  }

  lemma {:induction false} LinesSplit(d: Dict<string, set<string>>, orders: seq<seq<string>>, i: int)
    returns (a: string, b: string)
    requires |orders| == |d| && 0 <= i < |d|
    ensures LanguageLines(d, orders) == a + LanguageLine(d[i].0, orders[i]) + b
    decreases |d|
  {
    var n := |d| - 1;
    if i == n {
      a, b := LanguageLines(d[..n], orders[..n]), [];
    } else {
      a, b := LinesSplit(d[..n], orders[..n], i);
      b := b + LanguageLine(d[n].0, orders[n]);
    }
  }

  // The next three lemmas serve `RenderedExample` below.

  /** A one-word set has one iteration order. */
  lemma SingletonOrder(xs: seq<string>, w: string)
    requires Enumerates(xs, {w})
    ensures xs == [w]
  {
    assert xs[0] in xs;
  }

  /** The tense section of the example. */
  lemma ExampleSection()
    ensures TenseSection("Präsens", "\nich gehe\ndu gehst") == "*Präsens*:\nich gehe\ndu gehst\n" + RULE + "\n"
  {
    assert "*" + "Präsens" + "*:" == "*Präsens*:";
    assert "*Präsens*:" + "\nich gehe\ndu gehst" == "*Präsens*:\nich gehe\ndu gehst";
    assert "*Präsens*:\nich gehe\ndu gehst" + "\n" == "*Präsens*:\nich gehe\ndu gehst\n";
  }

  /** The language line of the example. */
  lemma ExampleLine()
    ensures LanguageLine("en", ["go"]) == "*en*: go\n"
  {
    assert Join(", ", ["go"]) == "go";
  }

  /** The rendering of a one-tense, one-language response: the tense section
      with its rule, then the translations header and the one language line. */
  lemma RenderedExample(orders: seq<seq<string>>)
    requires |orders| == 1 && Enumerates(orders[0], {"go"})
    ensures Rendered([("Präsens", "\nich gehe\ndu gehst")], [("en", {"go"})], orders)
      == "Einfache Verbformen:\n" + ("*Präsens*:\nich gehe\ndu gehst\n" + RULE + "\n")
         + "Übersetzungen:\n" + "*en*: go\n"
  {
    SingletonOrder(orders[0], "go");
    var konj: Dict<string, string> := [("Präsens", "\nich gehe\ndu gehst")];
    var trans: Dict<string, set<string>> := [("en", {"go"})];
    assert konj[..0] == [] && trans[..0] == [] && orders[..0] == [];
    assert TenseSections(konj) == TenseSection("Präsens", "\nich gehe\ndu gehst");
    assert LanguageLines(trans, orders) == LanguageLine("en", ["go"]);
    ExampleSection();
    ExampleLine();
  }

  // ===========================================================================
  // The parser (lines 52-88)
  // ===========================================================================

  /** No block mentions any of the three tenses. */
  ghost predicate NoTenseMentioned(blocks: seq<string>)
  {
    forall k, i :: k in TENSES && 0 <= i < |blocks| ==> !MentionsTense(blocks[i], k)
  }

  /** How the module-level lists and the response's tense dict move together
      while a page is parsed, from the lists `start` on entry: a list filled
      on entry (`pre`) keeps its content; any other list is either empty, and
      the response lacks the tense, or holds exactly the one `fixed_text` that
      line 70 appended and whose form `'\n' + fixed_text` line 72 stored. */
  ghost predicate InStep(lists: map<string, seq<string>>, konj: Dict<string, string>, pre: set<string>,
                         start: map<string, seq<string>>)
  {
    forall k :: k in lists ==>
      k in start && (start[k] != [] <==> k in pre) &&
      (k in pre ==> lists[k] == start[k]) &&
      (k !in pre ==>
        (lists[k] == [] && Get(konj, k).None?) ||
        (|lists[k]| == 1 && Get(konj, k) == Some(['\n'] + lists[k][0])))
  }

  /** One pass of the inner loop (lines 59-72): if the block mentions `key`
      and the tense's list is still empty, the normalised text is appended to
      the list and stored, with a leading line break, in the response. */
  method FillTense(store: TenseStore, resp: VerbformenResponse, text: string, key: string,
                   ghost pre: set<string>, ghost start: map<string, seq<string>>)
    requires store.Valid() && key in store.lists && InStep(store.lists, resp.konjugation, pre, start)
    modifies store, resp
    ensures store.Valid() && InStep(store.lists, resp.konjugation, pre, start)
    ensures resp.konjugation ==
      if MentionsTense(text, key) && key !in pre && Get(old(resp.konjugation), key).None?
      then Put(old(resp.konjugation), key, Stored(text, key)) else old(resp.konjugation)
    ensures store.lists ==
      if MentionsTense(text, key) && key !in pre && Get(old(resp.konjugation), key).None?
      then old(store.lists)[key := [Normalised(text, key)]] else old(store.lists)
    ensures resp.transactions == old(resp.transactions)
  {
    if MentionsTense(text, key) && store.lists[key] == [] {
      var fixed := NormaliseBlock(text, key);
      InStepFill(store.lists, resp.konjugation, pre, start, key, fixed);
      assert store.lists[key] + [fixed] == [fixed];
      store.lists := store.lists[key := store.lists[key] + [fixed]];
      resp.konjugation := Put(resp.konjugation, key, ['\n'] + fixed);
    }
  }

  /** Filling an empty list and storing the tense in the response together
      keeps the two in step. */
  lemma InStepFill(lists: map<string, seq<string>>, konj: Dict<string, string>, pre: set<string>,
                   start: map<string, seq<string>>, key: string, v: string)
    requires InStep(lists, konj, pre, start) && key in lists && lists[key] == []
    ensures key !in pre && Get(konj, key).None?
    ensures InStep(lists[key := [v]], Put(konj, key, ['\n'] + v), pre, start)
  {
    var lists', konj' := lists[key := [v]], Put(konj, key, ['\n'] + v);
    forall k | k in lists'
      ensures k in start && (start[k] != [] <==> k in pre) &&
        (k in pre ==> lists'[k] == start[k]) &&
        (k !in pre ==>
          (lists'[k] == [] && Get(konj', k).None?) ||
          (|lists'[k]| == 1 && Get(konj', k) == Some(['\n'] + lists'[k][0])))
    {
      PutGet(konj, key, ['\n'] + v, k);
    }
  }

  /** The inner loop over the tense keys `keys` for one block (lines 57-72). */
  method FillFromBlock(store: TenseStore, resp: VerbformenResponse, text: string, keys: seq<string>,
                       ghost pre: set<string>, ghost start: map<string, seq<string>>)
    requires store.Valid() && InStep(store.lists, resp.konjugation, pre, start)
    requires forall k :: k in keys ==> k in store.lists
    modifies store, resp
    ensures store.Valid() && InStep(store.lists, resp.konjugation, pre, start)
    ensures resp.konjugation == ScanBlock(text, keys, old(resp.konjugation), pre)
    ensures resp.transactions == old(resp.transactions)
  {
    var t := 0;
    while t < |keys|
      invariant 0 <= t <= |keys|
      invariant store.Valid() && InStep(store.lists, resp.konjugation, pre, start)
      invariant ScanBlock(text, keys[t..], resp.konjugation, pre) == ScanBlock(text, keys, old(resp.konjugation), pre)
      invariant resp.transactions == old(resp.transactions)
    {
      assert keys[t..][1..] == keys[t + 1..];
      FillTense(store, resp, text, keys[t], pre, start);
      t := t + 1;
    }
  }

  /** The word set of one translation container (lines 77-82). */
  method CollectWords(children: seq<string>) returns (words: set<string>)
    ensures words == WordSet(children)
  {
    words := {};
    var c := 0;
    while c < |children|
      invariant 0 <= c <= |children|
      invariant words == WordSet(children[..c])
    {
      var text := Strip(children[c]);
      assert children[..c + 1][..c] == children[..c];
      if |text| > 2 {
        words := words + {text};
      }
      c := c + 1;
    }
    assert children[..c] == children;
  }

  /** The outer loop over the conjugation blocks (line 56), from a fresh
      response. */
  method FillFromBlocks(store: TenseStore, resp: VerbformenResponse, blocks: seq<string>,
                        keys: seq<string>, ghost pre: set<string>)
    requires store.Valid() && resp.konjugation == [] && resp.transactions == []
    requires forall k :: k in keys ==> k in store.lists
    requires forall k :: k in store.lists ==> (store.lists[k] != [] <==> k in pre)
    modifies store, resp
    ensures store.Valid() && InStep(store.lists, resp.konjugation, pre, old(store.lists))
    ensures resp.konjugation == ScanTenses(blocks, keys, pre)
    ensures forall k, i :: k in keys && k !in pre && FirstMention(blocks, k, i) ==>
      store.lists[k] == [Normalised(blocks[i], k)]
    ensures forall k :: k in store.lists && NoMention(blocks, k) ==> store.lists[k] == old(store.lists[k])
    ensures resp.transactions == []
  {
    ghost var start := store.lists;
    var b := 0;
    while b < |blocks|
      invariant 0 <= b <= |blocks|
      invariant store.Valid() && InStep(store.lists, resp.konjugation, pre, start)
      invariant resp.konjugation == ScanTenses(blocks[..b], keys, pre)
      invariant resp.transactions == []
    {
      FillFromBlock(store, resp, blocks[b], keys, pre, start);
      assert blocks[..b + 1][..b] == blocks[..b];
      b := b + 1;
    }
    assert blocks[..b] == blocks;
    forall k, i | k in keys && k !in pre && FirstMention(blocks, k, i)
      ensures store.lists[k] == [Normalised(blocks[i], k)]
    {
      ListHoldsFirstMention(store.lists, blocks, keys, pre, start, k, i);
    }
    forall k | k in store.lists && NoMention(blocks, k) ensures store.lists[k] == start[k] {
      ScanTensesMissing(blocks, keys, pre, k);
    }
  }

  /** After the blocks, the list of a tense filled during the call holds the
      normalised text of the first block that mentions it (lines 56-70). */
  lemma ListHoldsFirstMention(lists: map<string, seq<string>>, blocks: seq<string>, keys: seq<string>,
                              pre: set<string>, start: map<string, seq<string>>, k: string, i: int)
    requires InStep(lists, ScanTenses(blocks, keys, pre), pre, start) && k in lists
    requires k in keys && k !in pre && FirstMention(blocks, k, i)
    ensures lists[k] == [Normalised(blocks[i], k)]
  {
    FirstMentionWins(blocks, keys, pre, k, i);
    assert ['\n'] + lists[k][0] == ['\n'] + Normalised(blocks[i], k);
    assert lists[k][0] == (['\n'] + lists[k][0])[1..];
  }

  /** The translation loop (lines 75-85) over the language codes `langs`:
      a missing container raises inside the `try`, which ends the loop. */
  method FillTranslations(resp: VerbformenResponse, langs: seq<string>, containers: map<string, seq<string>>)
    requires forall i, j :: 0 <= i < j < |langs| ==> langs[i] != langs[j]
    requires resp.transactions == []
    modifies resp
    ensures resp.transactions == CollectTranslations(langs, containers)
    ensures resp.konjugation == old(resp.konjugation)
  {
    var l := 0;
    while l < |langs|
      invariant 0 <= l <= |langs|
      invariant resp.konjugation == old(resp.konjugation)
      invariant Keys(resp.transactions) == langs[..l]
      invariant resp.transactions + CollectTranslations(langs[l..], containers)
        == CollectTranslations(langs, containers)
    {
      var lang := langs[l];
      if lang !in containers {
        TranslationsBreak(resp.transactions, langs, containers, l);
        break;
      }
      var words := CollectWords(containers[lang]);
      TranslationsStep(resp.transactions, langs, containers, l, words);
      resp.transactions := Put(resp.transactions, lang, words);
      l := l + 1;
    }
  }

  /** A missing container ends the translation loop with the collection complete. */
  lemma TranslationsBreak(r: Dict<string, set<string>>, langs: seq<string>,
                          containers: map<string, seq<string>>, l: int)
    requires 0 <= l < |langs| && langs[l] !in containers
    requires r + CollectTranslations(langs[l..], containers) == CollectTranslations(langs, containers)
    ensures r == CollectTranslations(langs, containers)
  {
    assert CollectTranslations(langs[l..], containers) == [];
    assert r + [] == r;
  }

  /** One pass of the translation loop appends the next language's word set. */
  lemma TranslationsStep(r: Dict<string, set<string>>, langs: seq<string>,
                         containers: map<string, seq<string>>, l: int, words: set<string>)
    requires forall i, j :: 0 <= i < j < |langs| ==> langs[i] != langs[j]
    requires 0 <= l < |langs| && langs[l] in containers && words == WordSet(containers[langs[l]])
    requires Keys(r) == langs[..l]
    requires r + CollectTranslations(langs[l..], containers) == CollectTranslations(langs, containers)
    ensures Keys(Put(r, langs[l], words)) == langs[..l + 1]
    ensures Put(r, langs[l], words) + CollectTranslations(langs[l + 1..], containers)
      == CollectTranslations(langs, containers)
  {
    var lang := langs[l];
    var rest := CollectTranslations(langs[l + 1..], containers);
    assert langs[l..][1..] == langs[l + 1..];
    assert CollectTranslations(langs[l..], containers) == [(lang, words)] + rest;
    assert lang !in Keys(r) by {
      assert forall i :: 0 <= i < l ==> langs[..l][i] == langs[i];
    }
    PutNewKey(r, lang, words);
    PutKeys(r, lang, words);
    assert r + ([(lang, words)] + rest) == (r + [(lang, words)]) + rest;
    assert langs[..l + 1] == langs[..l] + [lang];
  }

  /** `parse_verben_page` (lines 52-88): the tense dict is the first-match
      scan of the blocks against the lists' state on entry, the translations
      are collected up to the first missing container, and the module-level
      lists are clear again afterwards. From clear lists, the response is
      empty exactly when no block names a tense or the page has no English
      container (line 39). */
  method ParseVerbenPage(store: TenseStore, page: Page) returns (resp: VerbformenResponse)
    requires store.Valid()
    modifies store
    ensures fresh(resp)
    ensures store.Valid() && store.AllClear()
    ensures resp.konjugation == ScanTenses(page.blocks, TENSES, old(store.Filled()))
    ensures resp.transactions == CollectTranslations(LANGUAGES, page.containers)
    ensures old(store.AllClear()) ==>
      (resp.IsEmpty() <==> NoTenseMentioned(page.blocks) || "en" !in page.containers)
  {
    resp := new VerbformenResponse();
    ghost var pre := store.Filled();
    ghost var wasClear := store.AllClear();
    FillFromBlocks(store, resp, page.blocks, TENSES, pre);
    FillTranslations(resp, LANGUAGES, page.containers);
    store.ClearAll();
    if wasClear {
      assert pre == {};
      EmptyIffNothingFound(page);
    }
  }

  /** Whether the parsed response is empty: no block mentions a tense, or the
      page has no English container (and so no translations at all), when
      the module-level lists start out clear (line 39). */
  lemma EmptyIffNothingFound(page: Page)
    ensures (|ScanTenses(page.blocks, TENSES, {})| == 0 || |CollectTranslations(LANGUAGES, page.containers)| == 0)
      <==> NoTenseMentioned(page.blocks) || "en" !in page.containers
  {
    var d := ScanTenses(page.blocks, TENSES, {});
    ScanTensesKeys(page.blocks, TENSES, {});
    if |d| == 0 {
      forall k, i | k in TENSES && 0 <= i < |page.blocks| ensures !MentionsTense(page.blocks[i], k) {
        ScanTensesMissing(page.blocks, TENSES, {}, k);
      }
    } else {
      var k := d[0].0;
      assert Keys(d)[0] == k;
      GetSomeIffKey(d, k);
      ScanTensesMissing(page.blocks, TENSES, {}, k);
    }
  }

  // ===========================================================================
  // Lookup (lines 91-97)
  // ===========================================================================

  /** `f"{BASE_URL}/?w={query}"` (line 92). */
  function LookupUrl(query: string): string
  {
    BASE_URL + "/?w=" + query
  }

  /** The query parameter of a lookup URL, if `url` is one. */
  function QueryOf(url: string): Option<string>
  {
    var prefix := BASE_URL + "/?w=";
    if prefix <= url then Some(url[|prefix|..]) else None
  }

  /** The lookup URL carries the query unchanged after a fixed prefix, and
      every lookup URL is the URL of exactly one query. */
  lemma LookupUrlRoundTrip(query: string, url: string)
    ensures QueryOf(LookupUrl(query)) == Some(query)
    ensures QueryOf(url).Some? ==> LookupUrl(QueryOf(url).value) == url
  {
    var prefix := BASE_URL + "/?w=";
    assert LookupUrl(query) == prefix + query;
    assert (prefix + query)[|prefix|..] == query;
    if prefix <= url {
      assert url == prefix + url[|prefix|..];
    }
  }

  /** `lookup_verbformen` (lines 91-97): the request goes to the lookup URL;
      a failed reply gives `None`, a page is parsed. */
  method LookupVerbformen(store: TenseStore, query: string, fetch: string -> Reply)
    returns (url: string, resp: VerbformenResponse?)
    requires store.Valid()
    modifies store
    ensures url == LookupUrl(query)
    ensures store.Valid()
    ensures fetch(LookupUrl(query)).Failed? ==> resp == null && store.lists == old(store.lists)
    ensures fetch(LookupUrl(query)).Fetched? ==>
      (resp != null && fresh(resp) && store.AllClear()
       && resp.konjugation == ScanTenses(fetch(LookupUrl(query)).page.blocks, TENSES, old(store.Filled()))
       && resp.transactions == CollectTranslations(LANGUAGES, fetch(LookupUrl(query)).page.containers))
  {
    url := BASE_URL + "/?w=" + query;
    var reply := fetch(url);
    if reply.Fetched? {
      resp := ParseVerbenPage(store, reply.page);
    } else {
      resp := null;
    }
  }
}
