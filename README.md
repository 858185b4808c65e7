# deutsch-verben-bot: the verbformen scraper core in Dafny

This project models `util/bot_tools.py` of the deutsch-verben-bot Telegram bot.
That is the part of the bot that turns a verbformen.de conjugation page into a
`VerbformenResponse` and renders it as the reply text. The HTML layer is given
as plain data:

- `Page.blocks` are the texts of the `div.vTbl` conjugation blocks, in document order.
- `Page.containers` maps a language code to the texts of the child elements of
  its `div[lang=...]` container. A language without a container is absent from
  the map.

The modules follow the program's structure:

- `Opt`: the `Option` type.
- `Strings`: the Python string operations the code uses.
  - `str.replace`: every occurrence, left to right, non-overlapping. An empty
    pattern inserts the replacement everywhere.
  - `strip()`, over Python's `isspace` set.
  - `lower()`.
  - `in` on strings.
  - `str.join`.
- `OrderedMaps`: a Python `dict` as an insertion-ordered sequence of key/value
  pairs with distinct keys.
- `VerbformenText`: how one block's text becomes the stored form list
  (lines 59-72). The tense name is cut out, line breaks become spaces and the
  text is trimmed. Then either a line break goes in front of `du`, `er`, `wir`,
  `ihr` and `sie`, or every space becomes a line break.
- `PersonLines`: what the pronoun pass does to a text of words and single
  separators. On a conjugation table of the six persons it gives exactly one
  person per line.
- `BotTools`: the constants, the parser and the response.
  - The module-level `konjugation` dict of lists is the class `TenseStore`.
    It survives between calls, so the parser takes it as an argument.
  - `VerbformenResponse` is a class with the fields `konjugation` and
    `transactions`.
  - The tense scan and the translation collection are specification
    functions (`ScanTenses`, `CollectTranslations`).
  - The imperative loops (`FillFromBlocks`, `FillFromBlock`, `FillTense`,
    `FillTranslations`, `CollectWords`, `NormaliseBlock`, `ToString`) are
    methods proved equal to those functions.

The HTTP request is a parameter. `LookupVerbformen` receives a function `fetch`
from URL to `Reply`, and the `Reply` is either a fetched `Page` or a failure status.

Notes on how the code behaves:

- Every block is matched against every tense key (lines 58-59), so one block
  can fill several tenses (`OneBlockSeveralTenses`).
- `is_empty` (line 39) is true when there is no tense OR no translation
  (`ParseVerbenPage`, `EmptyIffNothingFound`).
- The pattern `f" {pr} "` (lines 66-67) needs a space after the pronoun. In
  plain text `ich du er wir ihr sie` the final `sie` therefore gets no line
  break. Within one pass two matches cannot share a space, so in
  `... sie sie ...` the second `sie` gets no break either. The model proves
  the one-person-per-line result (`OneLinePerPerson`) for tables in which
  each pronoun is followed by a form of one or more words, none of them a
  pronoun. That includes the two-word forms of separable and reflexive verbs
  such as `ich fange an` or `ich wasche mich` (`SeparableVerb`).
- The tense name is removed only in its exact case (line 61), although the
  test on line 59 is case-insensitive (`CapitalHeadingMentions`,
  `CapitalHeadingKept`).
- A failed request makes `lookup_verbformen` return `None` (lines 94-97).

## Model

| member | source | states |
|---|---|---|
| Strings.Lower | util/bot_tools.py:59 | The definition of `lower()` used by the tense test: same length, each character lowered on its own. `LowerConcat` states that it works piecewise. |
| Strings.LowerConcat | util/bot_tools.py:59 | Lower-casing a concatenation lowers each part. |
| Strings.Contains | util/bot_tools.py:59 | The definition of `sub in s`, also used on line 64. Its properties are stated by `ContainsIff`, `ContainsChar`, `ContainsInfix` and `ContainsTooLong`. |
| Strings.ContainsIff | util/bot_tools.py:59 | `sub in s` holds exactly when `sub` stands at some index of `s`. |
| Strings.ContainsInfix | util/bot_tools.py:64 | Whatever stands between a prefix and a suffix is contained in the whole. |
| Strings.ContainsTooLong | util/bot_tools.py:64 | A pattern longer than the text never occurs in it. |
| Strings.Join | util/bot_tools.py:48 | The definition of `sep.join(xs)`. `JoinSnoc` and `JoinReplaceSep` state its properties. |
| Strings.JoinSnoc | util/bot_tools.py:48 | Joining one more item appends the separator and then that item. An empty list joins to the item alone. |
| Strings.Replace | util/bot_tools.py:60-62 | The definition of `str.replace`, also used on lines 66-69. Its properties are stated by `ReplaceAbsent`, `ReplaceChar`, `ReplaceCharConcat`, `ReplaceLeadingSpace` and `PersonLines.ReplaceWeave`. |
| Strings.Strip | util/bot_tools.py:63 | The definition of `strip()`. Its properties are stated by `StripShape`, `StripIdempotent` and `StripSpaces`. |
| Strings.StripShape | util/bot_tools.py:63 | `strip()` returns an infix of its input. Only whitespace is cut off before and after it, and the result neither starts nor ends with whitespace. |
| Strings.StripIdempotent | util/bot_tools.py:63 | A second `strip()` changes nothing. |
| Strings.StripSpaces | util/bot_tools.py:63 | `strip()` of leading whitespace followed by trimmed text is that text. |
| Strings.ReplaceAbsent | util/bot_tools.py:60-62 | `replace` with a pattern that does not occur leaves the string unchanged. |
| Strings.ReplaceChar | util/bot_tools.py:62 | A one-character `replace` keeps the length, rewrites every occurrence in place and keeps every other character. |
| Strings.ReplaceCharRemoves | util/bot_tools.py:62 | After `replace('\n', ' ')` no line break is left. |
| Strings.ReplaceCharConcat | util/bot_tools.py:62 | A one-character `replace` works piecewise over a concatenation. |
| Strings.JoinReplaceSep | util/bot_tools.py:62 | Items joined by line breaks, with every line break then replaced by a space, are the items joined by spaces, provided no item holds a line break. |
| Strings.ReplaceLeadingSpace | util/bot_tools.py:66-67 | `replace(" " + w, "\n" + w)` keeps the length and turns only spaces into line breaks. Every new line break is followed by `w`. |
| Strings.ContainsChar | util/bot_tools.py:62 | A one-character pattern occurs exactly when the character is in the string. |
| OrderedMaps.Put | util/bot_tools.py:72 | The definition of `d[k] = v` on an insertion-ordered dict. Its properties are stated by `PutGet`, `PutKeys`, `PutNewKey` and `PutDistinct`. |
| OrderedMaps.GetSomeIffKey | util/bot_tools.py:72 | A dict lookup succeeds exactly when the key is one of the keys. |
| OrderedMaps.PutGet | util/bot_tools.py:72 | After `d[k] = v`, `k` maps to `v` and every other key keeps its value. |
| OrderedMaps.PutNewKey | util/bot_tools.py:72 | A new key is appended at the end. |
| OrderedMaps.PutKeys | util/bot_tools.py:72 | An existing key keeps its position. A new key comes last. |
| OrderedMaps.PutDistinct | util/bot_tools.py:83 | `d[k] = v` never creates a duplicate key. |
| VerbformenText.MentionsTense | util/bot_tools.py:59 | The definition of `key.lower() in text.lower()`. Its behaviour is shown by `CapitalHeadingMentions` and used by `BotTools.ScanBlockGet`. |
| VerbformenText.MentionsAnyOf | util/bot_tools.py:64 | The definition of the `any(...)` test. `PersonLines.TableMentionsPronoun` shows a table taking that branch. |
| VerbformenText.BreakBeforeEach | util/bot_tools.py:65-67 | The definition of the five passes. Their properties are stated by `BreakBeforeEachShape` and `PersonLines.BreakBeforeEachWeave`. |
| VerbformenText.SplitForms | util/bot_tools.py:64-69 | The definition of the split. Its properties are stated by `SplitFormsSwapsSpaces`, `SplitFormsWithoutPronoun`, `SplitFormsWithPronoun`, `SplitFormsKeepsIch` and `PersonLines.OneLinePerPerson`. |
| VerbformenText.Normalised | util/bot_tools.py:60-69 | The definition of the final `fixed_text`. `NormaliseBlock` computes it and `NoBreakBeforeIch` states a property of it. |
| VerbformenText.Stored | util/bot_tools.py:72 | The definition of the stored value `'\n' + fixed_text`. Its shape is stated by `StoredShape`. |
| VerbformenText.Flattened | util/bot_tools.py:60-63 | The flattened block text holds no line break, and it neither starts nor ends with whitespace. |
| VerbformenText.NormaliseBlock | util/bot_tools.py:60-69 | The loop that reassigns `fixed_text` once per pronoun after `ich` computes the normalised text. |
| VerbformenText.SplitFormsSwapsSpaces | util/bot_tools.py:64-69 | In both branches the split only turns spaces into line breaks, so the length is kept. |
| VerbformenText.SplitFormsWithoutPronoun | util/bot_tools.py:68-69 | Without a pronoun, every space and only a space becomes a line break, so no space is left. |
| VerbformenText.SplitFormsWithPronoun | util/bot_tools.py:64-67 | With a pronoun present, a line break appears only at a space in front of `du`, `er`, `wir`, `ihr` or `sie` standing as a word. |
| VerbformenText.BreakBeforeEachShape | util/bot_tools.py:65-67 | Each line break the pronoun passes add replaces a space that stood in front of one of the pronouns as a word. |
| VerbformenText.SpacedIchMentions | util/bot_tools.py:64 | In text without line breaks, an `ich` after a space and followed by a space makes the pronoun test succeed. |
| VerbformenText.SplitFormsKeepsIch | util/bot_tools.py:64-69 | No line break stands in front of an `ich` that is followed by a space. A final `ich` after a space does get one (line 69). |
| VerbformenText.NoBreakBeforeIch | util/bot_tools.py:59-69 | In the normalised block text, no line break stands in front of an `ich` that is followed by a space. A final `ich` after a space does get one (line 69). |
| VerbformenText.FinalIchSplitOff | util/bot_tools.py:64-69 | With no pronoun match, `geht ich` is split into `geht` and `ich` on two lines: the final `ich` gets a line break in front. |
| VerbformenText.StoredShape | util/bot_tools.py:64-72 | The stored value is a line break followed by the split text. The split text is as long as the flattened text and differs from it only by spaces turned into line breaks. |
| VerbformenText.CapitalHeadingMentions | util/bot_tools.py:59 | The test lowers both sides, so `PRÄSENS` mentions `Präsens`. |
| VerbformenText.FlattenedUnchanged | util/bot_tools.py:60-63 | A trimmed one-line text without the exact tense name comes through flattening unchanged. |
| VerbformenText.CapitalHeadingKept | util/bot_tools.py:59-61 | `replace` matches the exact case only, so the heading `PRÄSENS` is not cut out. |
| PersonLines.ReplaceWeave | util/bot_tools.py:66-67 | One pass `replace(f" {p} ", f"\n{p} ")` over words with single separators keeps the words and changes only the separators, as the left-to-right scan `Marked` says. |
| PersonLines.MarkedAt | util/bot_tools.py:66-67 | When `p` never stands twice in a row, a separator becomes a line break exactly when it is a space in front of `p` and the separator after `p` is a space. |
| PersonLines.MarkedSeps | util/bot_tools.py:66-67 | A pass writes only spaces and line breaks as separators. |
| PersonLines.BreakBeforeEachWeave | util/bot_tools.py:65-67 | The five passes keep the words and rewrite the separators pass by pass. |
| PersonLines.PassAtCore | util/bot_tools.py:66-67 | In words where each pronoun is followed by a word that is not one, the pass for a pronoun not yet done adds exactly the line breaks in front of that pronoun. |
| PersonLines.PassStep | util/bot_tools.py:65-67 | In such words, the pass for the m-th pronoun adds a line break in front of each of its occurrences and changes nothing else. |
| PersonLines.AllPasses | util/bot_tools.py:65-67 | In such words, the passes from the m-th pronoun on leave a line break in front of every `du`, `er`, `wir`, `ihr` and `sie`, and spaces everywhere else. |
| PersonLines.TableJoin | util/bot_tools.py:64-67 | A table woven with spaces inside each person and `c` between persons is its lines joined by `c`. |
| PersonLines.TableSepsAt | util/bot_tools.py:64-67 | A separator of the table is the between-person separator exactly when a later pronoun follows it. |
| PersonLines.TablePersonWords | util/bot_tools.py:64-67 | In the table, every pronoun is followed by the first word of its form, which is not a pronoun. |
| PersonLines.TableMentionsPronoun | util/bot_tools.py:64 | A six-person table on one line takes the pronoun branch. |
| PersonLines.OneLinePerPerson | util/bot_tools.py:64-67 | `ich f0 du f1 er f2 wir f3 ihr f4 sie f5` on one line becomes one line per person. Each form is one or more words, none of them a pronoun. |
| PersonLines.SeparableVerb | util/bot_tools.py:64-67 | A separable verb's table, such as `ich fange an du fängst an ... sie fangen an`, becomes one line per person, with the particle kept on each line. |
| PersonLines.TableBlockStored | util/bot_tools.py:59-72 | A block holding the tense name and then one person per line is stored as a line break followed by one line per person. This holds when the name does not occur again and the forms hold no whitespace inside their words. Forms may have several words. |
| BotTools.ScanBlock | util/bot_tools.py:58-72 | The definition of one block's effect on the tense dict. `ScanBlockGet` states it tense by tense. |
| BotTools.ScanTenses | util/bot_tools.py:56-72 | The definition of the whole tense scan. Its properties are stated by `ScanTensesMissing`, `FirstMentionWins` and `ScanTensesKeys`. |
| BotTools.ScanBlockGet | util/bot_tools.py:58-72 | After one block, a tense has its earlier value if it had one. Otherwise it has this block's stored text if the block mentions it and its module-level list was empty on entry. Otherwise it has no value. |
| BotTools.ScanTensesMissing | util/bot_tools.py:56-72 | A tense is missing from the response exactly when it is not a key, its list was filled on entry, or no block mentions it. |
| BotTools.FirstMentionWins | util/bot_tools.py:56-72 | A tense's value comes from the first block that mentions it. Later blocks do not change it. |
| BotTools.ScanTensesKeys | util/bot_tools.py:56-72 | The response's tense dict has distinct keys, all of them tense names. |
| BotTools.OneBlockSeveralTenses | util/bot_tools.py:58-59 | A block naming both `Präsens` and `Präteritum` fills both tenses. |
| BotTools.WordSet | util/bot_tools.py:77-82 | The definition of one language's word set. Its properties are stated by `WordSetMembers` and `WordSetWordsStripped`. |
| BotTools.CollectTranslations | util/bot_tools.py:75-85 | The definition of the translations dict. Its properties are stated by `TranslationsStopAtMissing`. |
| BotTools.WordSetMembers | util/bot_tools.py:77-82 | A word is kept exactly when some child strips to it and it is longer than two characters. |
| BotTools.WordSetWordsStripped | util/bot_tools.py:80-82 | Every kept word is stripped and longer than two characters. |
| BotTools.TranslationsStopAtMissing | util/bot_tools.py:75-85 | The recorded languages are the longest prefix of `en`, `ru` whose containers are all present, each with its own word set. The first missing container stops the collection. |
| BotTools.TenseStore.Filled | util/bot_tools.py:59 | The tenses whose list is not empty, tested by `not konjugation[key]`. None is filled exactly when all lists are clear. With `ParseVerbenPage` leaving the lists clear, the next call therefore scans with nothing pre-filled. |
| BotTools.TenseStore.constructor | util/bot_tools.py:8-16 | The lists exist for exactly the three tenses and are all empty. |
| BotTools.TenseStore.ClearAll | util/bot_tools.py:86-87 | After clearing, every list is empty and no tense has been added or removed. |
| BotTools.TenseSection | util/bot_tools.py:44-45 | The definition of one tense section. `ExampleSection` and `TenseSectionRendered` state properties of it. |
| BotTools.LanguageLine | util/bot_tools.py:48 | The definition of one language line. `ExampleLine` and `LanguageLineRendered` state properties of it. |
| BotTools.Rendered | util/bot_tools.py:41-49 | The definition of the whole layout. `ToString` computes it, and `TenseSectionRendered`, `LanguageLineRendered` and `RenderedExample` state properties of it. |
| BotTools.VerbformenResponse.IsEmpty | util/bot_tools.py:38-39 | The definition of `is_empty`. `ParseVerbenPage` and `EmptyIffNothingFound` state when it holds for a parsed page. |
| BotTools.IterationOrder | util/bot_tools.py:48 | Iterating over a set visits each element exactly once. |
| BotTools.VerbformenResponse.constructor | util/bot_tools.py:34-36 | A new response has no tenses and no translations. |
| BotTools.VerbformenResponse.ToString | util/bot_tools.py:41-49 | The rendered text is the `Einfache Verbformen:` heading, then one section per tense in insertion order, then `Übersetzungen:`, then one line per language. Each set is joined in an order that lists each of its words once. |
| BotTools.TenseSectionRendered | util/bot_tools.py:43-45 | Every tense's section `*k*:v`, followed by the rule of 30 dashes, appears in the rendered text. |
| BotTools.LanguageLineRendered | util/bot_tools.py:47-48 | Every language's line `*lang*: w1, w2, ...` appears in the rendered text. |
| BotTools.SingletonOrder | util/bot_tools.py:48 | A one-word set can be iterated in only one order. |
| BotTools.RenderedExample | util/bot_tools.py:41-49 | One tense and one one-word translation render as the exact expected text. |
| BotTools.FillTense | util/bot_tools.py:59-72 | One inner-loop step acts when the block mentions the tense and the tense is still unfilled. It then sets the tense's list to exactly the normalised text and stores that text with a leading line break. Otherwise lists and response are unchanged. |
| BotTools.InStepFill | util/bot_tools.py:70-72 | Appending `v` to an empty list and storing `'\n' + v` keeps the lists and the response in step. |
| BotTools.FillFromBlock | util/bot_tools.py:57-72 | The loop over the tense keys for one block computes the one-block scan. It keeps the lists in step with the response: a pre-filled list is unchanged, and every other list is empty or holds the one text whose stored form is in the response. |
| BotTools.FillFromBlocks | util/bot_tools.py:56-72 | The loop over the blocks computes the whole first-match scan. Each tense filled during the call has the list `[fixed_text]` of the first block that mentions it. A tense no block mentions keeps its list. |
| BotTools.ListHoldsFirstMention | util/bot_tools.py:56-70 | Once the lists are in step with the scan, a tense filled during the call has as its list exactly the normalised text of its first mentioning block. |
| BotTools.CollectWords | util/bot_tools.py:77-82 | The loop over one container's children computes its word set. |
| BotTools.FillTranslations | util/bot_tools.py:75-85 | The loop over the languages computes the translations dict and stops at the first missing container. |
| BotTools.TranslationsStep | util/bot_tools.py:76-83 | Recording one more present language extends the dict by that language, in order. |
| BotTools.TranslationsBreak | util/bot_tools.py:75-85 | At a missing container the dict built so far is the final one. |
| BotTools.ParseVerbenPage | util/bot_tools.py:52-88 | The tense dict is the first-match scan against the lists' state on entry. The translations are collected up to the first missing container. The module-level lists are clear again on return. From clear lists, the response is empty exactly when no tense is mentioned or there is no English container. |
| BotTools.EmptyIffNothingFound | util/bot_tools.py:38-39 | From clear lists, `is_empty` holds exactly when no block mentions a tense or the page has no `en` container. |
| BotTools.LookupUrl | util/bot_tools.py:92 | The definition of the request URL. `LookupUrlRoundTrip` states its properties. |
| BotTools.LookupUrlRoundTrip | util/bot_tools.py:92 | The query comes back unchanged from the lookup URL, and every lookup URL belongs to exactly one query. |
| BotTools.LookupVerbformen | util/bot_tools.py:91-97 | The request goes to the lookup URL: the reply used is `fetch(LookupUrl(query))`. When that reply is a failure, the result is `None` and the lists are left alone. When it is a page, that page is parsed. |

## Left out

- HTML parsing with BeautifulSoup (`bs`, `find_all`, `find`, `.text`) is foreign library code. The page is given as its block texts and its containers' child texts.
- The `type(tag) == Tag` filter is part of the HTML layer: the children given are the `Tag` children only.
- `requests.get` is network I/O. Its outcome is the `Reply` that the `fetch` parameter gives for the URL, and its status code is carried but not used.
- The `print(e)` and `print(resp.status_code)` calls are output and are not modelled.
- The exception in the translation loop is modelled only through its effect: a missing container ends the collection. No other exception can arise in the tense loop's string operations.
- `lower()` lowers ASCII and Latin-1 capitals only. Other Unicode case mappings are not modelled.
- `strip()` trims a fixed list of whitespace code points.
- The iteration order of a Python set is unspecified. `ToString` returns the order it used, and properties are stated over that order.
- The commented-out tenses `Imperativ`, `Konjunktiv I`, `Konjunktiv II` and `Infinitiv` are not part of the constant.
- `deutsch-bot.py` (Telegram dispatch, replies, logging) is not part of this model.
- URL encoding: `url` is the string line 92 builds, with the query pasted in as is. The percent-encoding that the HTTP library applies before sending it belongs to the left-out HTTP layer.
- BotTools.FillTranslations: requires distinct language codes and an empty translations dict. The source constant `en`, `ru` and the fresh response always meet both.
- PersonLines.OneLinePerPerson: proved for forms of one or more words joined by single spaces, where no word holds a space or line break and no word is a pronoun. A form with a pronoun among its words is not covered: the pass for that pronoun could then put a line break inside the form.
- PersonLines.TableBlockStored: additionally requires that the words of the forms hold no whitespace and that the tense name does not occur again in the block.
