# Russian lemmatizers, modelled in Dafny

This project models the core of two small Russian lemmatizers and proves
properties of that model.

- `hw1/lemmatize.py` is the word-list lemmatizer. It reads word-list rows
  `(lemma, label, form, form, …)` into a flat dictionary. The dictionary maps
  each normalised form and the normalised lemma to `(lemma, coarse tag)`. Every
  token of every input line is then annotated as `token{lemma=TAG}` by lookup.
  A missing token gets `{token=NI}`.
- `hw1/lemm.py` is the corpus lemmatizer. It first scans an annotated corpus.
  - The scan builds a per-word, per-tag frequency table, the global
    `frequencies`. Each entry keeps its first lemma and a count.
  - The scan also builds a first lemma dictionary.
  - The word list is then overlaid on that dictionary.
  - A token is resolved by its most frequent corpus tag, with ties going to
    the tag seen first. The dictionary is the fallback when the token has no
    frequencies or its winner is NI.

Modules:

- `Tags` (`tags.dfy`): the coarse tags and the two label tables.
  `Tags.Name` gives the text under which a tag is printed.
- `Text` (`text.dfy`): normalisation, punctuation stripping, splitting on
  spaces, and the space-terminated output line. `Text.PreprocessStr` models
  `preprocess_str` (`hw1/lemm.py:35-38`, `hw1/lemmatize.py:18-21`).
- `Lexicon` (`lexicon.dfy`): the lemma dictionary. Every loader is an
  `Overlay`, meaning a sequence of writes where the last writer wins.
- `Lemmatize` (`lemmatize.dfy`): `hw1/lemmatize.py`. `Lemmatize.Resolve` and
  `Lemmatize.ProcessWord` model `process_word` (`hw1/lemmatize.py:9-15`).
- `Lemm` (`lemm.dfy`): `hw1/lemm.py`. The global `frequencies` is the class
  `Frequencies`; its loader mutates the field `table`.
  - `Lemm.Resolve` and `Lemm.ProcessWord` model `process_word`
    (`hw1/lemm.py:14-32`).
  - `Lemm.Winner` models the `max` over a word's tag items
    (`hw1/lemm.py:25`).
  - `Lemm.Bump` and `Lemm.CountReading` model the frequency update of one
    corpus token (`hw1/lemm.py:118-123`).
  - In `Lemm.LoadOdict` the `tag` loop variable of `load_odict` is an
    `Option<Tag>` that starts unbound. `Lemm.UsedTag` gives the value it
    carries when a row's lemma is written.
- `Pipelines` (`pipelines.dfy`): how the two lemmatizers relate.
- `Scenarios` (`scenarios.dfy`): concrete cases.

Source errors become preconditions:

- a corpus grammeme outside the table (KeyError);
- a word-list row too short for its label (IndexError);
- in `load_odict`, an empty row, whose `row[0]` raises IndexError
  (`hw1/lemm.py:138`);
- an unknown label (KeyError);
- in `load_odict`, a row without forms that comes before any row with forms
  (UnboundLocalError).

Two details of the code are easy to misread; the model follows the code:

- When a token has no frequencies, or its winning tag is NI, `hw1/lemm.py`
  keeps the dictionary lemma of the normalised token (`hw1/lemm.py:17-18`),
  not the raw token. `Scenarios.CapitalisedTokenScenario` proves that "Run"
  with the entry `run → (run, V)` prints `Run{run=V}`.
- In `load_odict`, only the loop over a row's forms assigns `tag`
  (`hw1/lemm.py:135-136`). A row without forms is therefore registered with
  the tag of the last earlier row that has forms, not with its own label.
  `hw1/lemmatize.py:58` uses the row's own label. `Pipelines.FormlessRowTagsDiffer`
  states the difference.

## Model

| member | source | states |
|---|---|---|
| Tags.Name | hw1/lemm.py:32 | every tag prints as a non-empty name, and only NI prints as "NI" |
| Tags.NameInjective | hw1/lemm.py:32 | different tags print under different names, so a printed tag names one tag |
| Tags.WordListTag | hw1/lemmatize.py:24-48 | every word-list label maps to an identified tag, never NI |
| Text.LowerChar | hw1/lemm.py:36 | the result is never an upper-case Latin or Cyrillic letter, and a character changes exactly when it is upper-case |
| Text.PreprocessStrIsNormal | hw1/lemm.py:35-38 | a normalised string contains no upper-case letter and no ё |
| Text.PreprocessStrFixedIffNormal | hw1/lemm.py:35-38 | normalising leaves a string unchanged exactly when it has no upper-case letter and no ё |
| Text.PreprocessStrIdempotent | hw1/lemmatize.py:18-21 | normalising twice is normalising once |
| Text.PreprocessStrIgnoresCase | hw1/lemmatize.py:18-21 | lower-casing before normalising changes nothing, so keys are case-insensitive |
| Text.RemoveCharContents | hw1/lemmatize.py:66-70 | `replace(c, '')` keeps exactly the other characters, and the length drops by the number of occurrences of c |
| Text.StripPunctuationContents | hw1/lemmatize.py:66-70 | the stripped line holds exactly the line's characters other than `, . ! ? \n` |
| Text.SplitPiecesFree | hw1/lemmatize.py:71 | no piece of `split(sep)` contains sep |
| Text.SplitPiecesWithin | hw1/lemmatize.py:71 | every character of every piece comes from the split string |
| Text.SplitCount | hw1/lemmatize.py:71 | splitting yields one piece more than there are separators, empty pieces included |
| Text.JoinSplit | hw1/lemmatize.py:71 | joining the pieces with the separator gives back the original string |
| Text.SplitJoin | hw1/lemmatize.py:71 | splitting a join of separator-free pieces gives back the pieces |
| Text.TokensProperties | hw1/lemmatize.py:66-71 | a line yields one token per space plus one, no token holds a space or punctuation, and the tokens rejoin to the stripped line |
| Text.SpaceTerminatedAppend | hw1/lemmatize.py:71-73 | the output for two token lists in a row is the two outputs concatenated |
| Text.SpaceTerminatedLength | hw1/lemmatize.py:71-73 | the output line is the annotations plus one space per token |
| Lexicon.RowKeysMentions | hw1/lemmatize.py:56-58 | a row writes exactly its normalised forms and then its normalised lemma |
| Lexicon.PutAllAt | hw1/lemmatize.py:56-57 | after writing an entry under a list of keys, each of those keys holds it and every other key is unchanged |
| Lexicon.OverlayLastWins | hw1/lemmatize.py:55-58 | after a sequence of writes, a key is present iff it was before or some write names it; it holds the last naming write's entry, and an unnamed key keeps its old value |
| Lexicon.OverlayMentionedIndependent | hw1/lemm.py:142-143 | a key some write names ends with the same entry whatever dictionary the writes started from |
| Lexicon.OverlayAppend | hw1/lemm.py:142-143 | running one loader after another is one overlay of all their writes |
| Lexicon.OverlayTagsIn | hw1/lemmatize.py:57-58 | writes with tags from a set keep every stored tag in that set |
| Lemmatize.LoadDictionary | hw1/lemmatize.py:51-59 | the nested loop returns the overlay of every row's writes, in row order, on an empty dictionary |
| Lemmatize.LoadedSnoc | hw1/lemmatize.py:56-58 | loading one more row writes its forms, then its lemma, over the dictionary so far |
| Lemmatize.LoadedLastWins | hw1/lemmatize.py:55-58 | a key is loaded iff some row names it, and it maps to the normalised lemma and tag of the last row that names it |
| Lemmatize.FormlessRowRegistersLemma | hw1/lemmatize.py:58 | a row with no forms still registers its lemma, with its own label's tag |
| Lemmatize.LoadedKeysNormal | hw1/lemmatize.py:57-58 | every loaded key is normalised |
| Lemmatize.LoadedTagsIdentified | hw1/lemmatize.py:57-58 | every loaded tag is one of A, S, V, CONJ, PR, ADV |
| Lemmatize.ResolveNIOnlyWhenAbsent | hw1/lemmatize.py:9-15 | with a loaded dictionary, a token gets NI exactly when its normalised form is absent, and then its own text is the lemma |
| Lemmatize.ResolveIgnoresCase | hw1/lemmatize.py:10-12 | a known token and its normalised form resolve to the same stored entry |
| Lemmatize.AnnotateLine | hw1/lemmatize.py:66-73 | the loop prints each token's annotation followed by a space, then a newline |
| Lemmatize.Run | hw1/lemmatize.py:62-73 | the program prints, for each input line in order, the annotated line under the loaded dictionary |
| Lemm.IndexOf | hw1/lemm.py:120 | a position found for a tag holds that tag |
| Lemm.IndexOfFirst | hw1/lemm.py:120 | the position found is the first holding the tag, and nothing is found exactly when no position holds it |
| Lemm.BumpFind | hw1/lemm.py:118-123 | counting a tag adds one to its count and keeps its first lemma, or inserts it with count 1 and this lemma; other tags read as before |
| Lemm.BumpShape | hw1/lemm.py:118-123 | a new tag is appended last and a known one stays in place; tags stay distinct and counts positive |
| Lemm.WinnerFirstMax | hw1/lemm.py:25 | the winner has the largest count, and no earlier item has that count |
| Lemm.FirstMaxUnique | hw1/lemm.py:25 | only one item is the first of largest count |
| Lemm.ReadingsNormal | hw1/lemm.py:109-113 | every word and lemma read from the corpus is normalised |
| Lemm.StatStep | hw1/lemm.py:118-123 | one corpus token changes the statistic of its own word and tag and of no other |
| Lemm.CountedStatPresent | hw1/lemm.py:118-121 | a statistic that already exists keeps its lemma and gains one count per matching token |
| Lemm.CountedStatAbsent | hw1/lemm.py:118-123 | a word/tag pair with no matching token gets no statistic |
| Lemm.CountedStatCreated | hw1/lemm.py:118-123 | a new statistic holds the lemma of the first matching token and counts all matching tokens |
| Lemm.CountedWellFormed | hw1/lemm.py:110-123 | the frequency table keeps normalised keys, non-empty tag tables, distinct tags and positive counts |
| Lemm.RawTokenHasNoStats | hw1/lemm.py:22 | a token that normalisation would change finds no frequencies |
| Lemm.CorpusDictSnoc | hw1/lemm.py:125-126 | after each corpus token, its word and its lemma both map to its (lemma, tag), and nothing else changes |
| Lemm.CorpusDictLastWins | hw1/lemm.py:125-126 | a key is in the corpus dictionary iff some token names it as word or lemma, and the last such token wins |
| Lemm.CorpusWordAndLemmaAgree | hw1/lemm.py:125-126 | unless overwritten later, a token's word and lemma map to the same entry |
| Lemm.UsedTagStale | hw1/lemm.py:135-138 | a row without forms is registered with the label of the last earlier row that has forms |
| Lemm.LoadOdict | hw1/lemm.py:131-138 | the row loop, with its loop-carried `tag`, yields the overlay of every row's writes on the given dictionary |
| Lemm.OdictSnoc | hw1/lemm.py:135-138 | one more row writes its forms, then its lemma, over the dictionary so far |
| Lemm.OdictRowStep | hw1/lemm.py:134-138 | after a row, every key it names holds its normalised lemma and tag, its own label's tag when it has forms; no other key changes |
| Lemm.OdictLastWins | hw1/lemm.py:134-138 | after the overlay a key holds the entry of the last row naming it; an unnamed key keeps its corpus entry |
| Lemm.FormlessFirstRowFails | hw1/lemm.py:135-138 | a first row without forms makes the overlay fail |
| Lemm.ResolveCases | hw1/lemm.py:14-32 | with no frequencies, the dictionary entry of the normalised token, or (token, NI); an identified winner gives its tag and first corpus lemma; a NI winner falls back to the dictionary |
| Lemm.Frequencies.constructor | hw1/lemm.py:94 | the frequency table starts empty |
| Lemm.Frequencies.RecordReading | hw1/lemm.py:118-123 | the in-place update of `frequencies[word]` is one counting step, and counting a normalised word keeps the table well formed |
| Lemm.Frequencies.LoadDictionary | hw1/lemm.py:97-128 | the scan counts every token into the table, keeps it well formed, and returns the corpus dictionary |
| Lemm.Frequencies.AnnotateLine | hw1/lemm.py:146-153 | the loop prints each token's annotation under the current frequencies, then a space, then a newline |
| Lemm.Frequencies.Run | hw1/lemm.py:141-153 | `main` prints each line annotated under the counted corpus and the corpus dictionary with the word list over it |
| Pipelines.FallbackIsLookup | hw1/lemm.py:14-32 | without frequencies, or with a NI winner, the corpus lemmatizer resolves exactly like the word-list lookup of `hw1/lemmatize.py` |
| Pipelines.FrequencyOverridesLookup | hw1/lemm.py:24-27 | an identified winner's answer does not depend on the dictionary |
| Pipelines.RawTokenAnnotatedByLookup | hw1/lemm.py:22 | a token with a capital letter or ё is annotated exactly as the word-list lemmatizer would annotate it |
| Pipelines.WordListOverridesCorpus | hw1/lemm.py:142-143 | every key the word list names has the same entry however the corpus was loaded |
| Pipelines.CorpusSurvivesOverlay | hw1/lemm.py:142-143 | a corpus key that no row names keeps its corpus entry |
| Pipelines.OverlayMatchesWordListLoader | hw1/lemm.py:131-138 | when every row has forms, the overlay on an empty dictionary equals `hw1/lemmatize.py`'s dictionary |
| Pipelines.FormlessRowTagsDiffer | hw1/lemm.py:135-138 | for a row without forms, the corpus lemmatizer stores the previous form row's tag and the word-list lemmatizer the row's own |
| Pipelines.TieGoesToFirstTag | hw1/lemm.py:25 | of two items with equal counts, the first wins (the general case is Lemm.WinnerFirstMax) |
| Scenarios.LotionScenario | hw1/lemm.py:118-123 | a corpus reading "lotion" three times as a noun (lemma "lot") and once as a verb (lemma "loot") counts to the table [noun: (lot, 3), verb: (loot, 1)], in that order, and "lotion" then resolves to (lot, S) whatever the dictionary holds |
| Scenarios.RunNormalises | hw1/lemm.py:35-38 | "Run" normalises to "run" |
| Scenarios.CapitalisedTokenScenario | hw1/lemm.py:14-32 | "Run" with the entry run → (run, V) prints `Run{run=V}` |

## Left out

- Reading files and printing are I/O. Inputs are sequences: corpus tokens, word-list rows and input lines. Output is a sequence of printed lines. This covers `os.listdir` and its unspecified order, `open`, and `print`.
- XML parsing is foreign code. Tokens arrive as already extracted `(text, lemma, grammeme)` triples.
- CSV parsing and cp1251 decoding are foreign code. Rows arrive as sequences of strings.
- Text.LowerChar: lowers only ASCII A–Z and the Cyrillic capitals U+0400–U+042F (А–Я, Ё and the rest of the U+0400 row). Every other character is left as is, including the Latin-1 and extended-Cyrillic capitals that Python's `str.lower()` also lowers.
- Reading `frequencies[w]` in `process_word` inserts an empty entry, because `frequencies` is a defaultdict. This is modelled as a lookup with an empty default. The inserted entry is empty, so it never changes a later result.
- Lemm.Resolve: `frequencies[w][tag][0]` is read as the winning item's lemma. The two agree because a tag table never holds a tag twice (`Lemm.BumpShape`, `Lemm.CountedWellFormed`).
- Lemm.LoadOdict: `load_odict` updates the caller's dictionary in place. The method takes the dictionary and returns the updated one. No other reference to the dictionary exists, so the results agree.
- The `Word` namedtuple and the `tqdm` and `operator` imports are unused.
