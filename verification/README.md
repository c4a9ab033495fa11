# title_processor, modelled in Dafny

`LSA_word_cloud/title_processor.py` turns a text of talk titles into a word
table for a word cloud.

- **Cleaning:** every token the tokenizer produces is stripped of leading and
  trailing apostrophes and hyphens (`get_words`).
- **Counting:** each word is grouped under its upper-cased stem. A word is
  dropped when that stem is on the fixed `STOPWORDS` list. Otherwise one pass
  counts the word under its stem, both per surface form (`word_by_stem`) and
  per stem (`stem_freq`).
- **Winner selection:** `max` picks a most frequent surface form for every
  stem.
- **Re-keying:** the result maps that form to the stem's total
  (`get_stem_freqs`).

The model has five modules:

- `Stopwords` (`stopwords.dfy`) holds the 104-entry list and the membership
  test `stem in STOPWORDS`. The test is written as Python's `in` on a list
  runs: a scan from the first entry that stops at an equal one. That form
  keeps the verifier from expanding the whole list literal wherever the
  test appears. `IsStopwordIn` shows that the scan agrees with Dafny's own
  sequence membership.
- `Words` (`words.dfy`) covers `w.strip("'-")` and `get_words`.
- `Counters` (`counters.dfy`) models Python's `Counter` and `defaultdict(int)`
  as `map<K, nat>`, where a missing key reads 0. It also holds their sum and
  iteration orders.
- `Selection` (`selection.dfy`) covers the two dict comprehensions of lines
  52-55. These are `max` over a form table visited in a given order, and the
  re-keying with its overwrite semantics.
- `StemFreqs` (`stem_freqs.dfy`) has the rest:
  - the counting pass, as a method with a loop over two map-valued tables.
    Its loop invariant shows that, after any prefix of the input, the tables
    equal `Tally`: one `Step` (lines 46-49) per word of that prefix.
  - `TallyCounted`, which proves `Tally` exact against definitions that do
    not mention the loop: `KeptWords`, `KeptStems`, `FormsOf`, `StemTotal`
    and the multiset of the words;
  - the whole of `get_stem_freqs`.

The stemmer followed by `.upper()` is a parameter `key: string -> string`.
It can be any deterministic function, and every property holds for every such
function. The tokenizer's output is the input `tokens`.

`iteritems()` visits a dict in an order Python leaves unspecified. In the
model that order is an explicit sequence that lists every key once
(`Enumerates`). The method `Enumerate` picks an arbitrary such order, so every
property of the result holds for every order.

What `get_stem_freqs` returns is specified by `StemFreqsOf`:

- Every entry is a word as spelled, whose stem is not a stopword, with the
  number of words sharing its stem.
- No word with that stem occurs more often.
- Every surviving stem has exactly one entry.
- The number of entries is the number of surviving stems.
- The entries add up to the number of surviving words.

`GetStemFreqs` is proved to return such a map for every key function, every
input and every iteration order. When no stem has two equally frequent top
forms, there is only one such map (`ResultUnique`).

## Model

| member | source | states |
|---|---|---|
| Stopwords.IsStopword | LSA_word_cloud/title_processor.py:19-31 | `stem in STOPWORDS` over the 104 entries as the program lists them, scanned from the first entry on |
| Stopwords.IsStopwordIn | LSA_word_cloud/title_processor.py:47 | the scan agrees with sequence membership: a stem is a stopword exactly when it equals one of the entries |
| Stopwords.ListedFromIn | LSA_word_cloud/title_processor.py:47 | the scan from position `i` on finds a stem exactly when it occurs in the rest of the list |
| Words.Strip | LSA_word_cloud/title_processor.py:63 | the stripped word is the token with only `'` and `-` characters cut off each end, and neither end of it is one |
| Words.StripLeading | LSA_word_cloud/title_processor.py:63 | removes exactly the leading run of `'`/`-`: a suffix whose cut-off prefix is all such characters and which does not start with one |
| Words.StripTrailing | LSA_word_cloud/title_processor.py:63 | removes exactly the trailing run of `'`/`-`: a prefix whose cut-off suffix is all such characters and which does not end with one |
| Words.StripUnique | LSA_word_cloud/title_processor.py:63 | any word obtained by cutting `'`/`-` off both ends, with neither end left being one, is the strip result, so the contract of `Strip` determines it |
| Words.StripLeadingOf | LSA_word_cloud/title_processor.py:63 | stripping the front of `p + s` removes exactly `p` when `p` is all `'`/`-` and `s` does not start with one |
| Words.StripTrailingOf | LSA_word_cloud/title_processor.py:63 | stripping the back of `s + q` removes exactly `q` when `q` is all `'`/`-` and `s` does not end with one |
| Words.StripIdempotent | LSA_word_cloud/title_processor.py:63 | re-stripping a stripped word changes nothing |
| Words.GetWords | LSA_word_cloud/title_processor.py:59-64 | one word per token, in order; word `i` is token `i` trimmed of `'`/`-` at both ends, has neither at its ends, and is unchanged by another strip |
| Words.GetWordsIdempotent | LSA_word_cloud/title_processor.py:59-64 | cleaning already-cleaned words changes nothing |
| Counters.Get | LSA_word_cloud/title_processor.py:48-49 | `c[k]` on a `Counter` or `defaultdict(int)` (also `stem_freq[key]` at line 55): the stored count, or 0 for a key never counted |
| Counters.SumAlongEnumeration | LSA_word_cloud/title_processor.py:55 | adding the counts up along any iteration order of a counter's keys gives its sum |
| StemFreqs.KeptWords | LSA_word_cloud/title_processor.py:45-47 | the words that pass the stopword filter are exactly the input words whose key is not a stopword |
| StemFreqs.KeptStems | LSA_word_cloud/title_processor.py:46-47 | the surviving keys include the key of every word that passes the filter, and none of them is a stopword |
| StemFreqs.StemTotalZero | LSA_word_cloud/title_processor.py:49 | a stem's total is zero exactly when no word has that stem |
| StemFreqs.KeptStemTotal | LSA_word_cloud/title_processor.py:47-49 | a non-stopword stem survives exactly when some word has it |
| StemFreqs.StopwordWordIgnored | LSA_word_cloud/title_processor.py:47 | a word whose key is a stopword changes neither the surviving words and stems nor any counted stem's forms, total or form counts |
| StemFreqs.FormCountsSum | LSA_word_cloud/title_processor.py:48-49 | a table holding exactly a stem's forms, each with its number of occurrences, sums to the stem's total |
| StemFreqs.StemTotalsSum | LSA_word_cloud/title_processor.py:49 | exact stem totals add up to the number of words that pass the stopword filter |
| StemFreqs.CountTotal | LSA_word_cloud/title_processor.py:49 | `stem_freq[stem] += 1` on a surviving word keeps every stem total exact |
| StemFreqs.CountForm | LSA_word_cloud/title_processor.py:48 | `word_by_stem[stem][word] += 1` on a surviving word keeps every form table exact |
| StemFreqs.SkipStep | LSA_word_cloud/title_processor.py:46-47 | an iteration on a stopword-keyed word leaves the tables exact for the longer input |
| StemFreqs.CountStep | LSA_word_cloud/title_processor.py:46-49 | an iteration on a surviving word leaves the tables exact for the longer input |
| StemFreqs.FormTable | LSA_word_cloud/title_processor.py:48 | `word_by_stem[stem]` on the `defaultdict`: the stem's form table, or an empty one for a stem not yet seen |
| StemFreqs.Step | LSA_word_cloud/title_processor.py:46-49 | one iteration: a stopword-keyed word leaves both tables alone; any other word adds one to its own form count and one to its stem's total |
| StemFreqs.Tally | LSA_word_cloud/title_processor.py:45-49 | the tables after the loop has gone through a sequence of words: one `Step` per word, from two empty tables |
| StemFreqs.TallyCounted | LSA_word_cloud/title_processor.py:45-49 | after any prefix of the input, the tables hold exactly that prefix's surviving stems, totals and form counts |
| StemFreqs.CountedEntries | LSA_word_cloud/title_processor.py:46-49 | exact tables only hold non-stopword stems; each form is filed under its own key and was seen at least once; each stem total is the sum of its form counts; the totals add up to the surviving words |
| StemFreqs.CountStems | LSA_word_cloud/title_processor.py:45-49 | after the loop both tables have exactly the surviving stems as keys, with no stopword among them. Each total is the stem's word count and the sum of its form table. Each form table holds that stem's forms with their occurrence counts, all positive. All totals add up to the number of surviving words |
| StemFreqs.FormTablesNonEmpty | LSA_word_cloud/title_processor.py:52-53 | every counted stem has at least one form, so `max` never sees an empty table |
| Selection.Enumerate | LSA_word_cloud/title_processor.py:52-53 | `iteritems()` yields every key of the dict exactly once |
| Selection.MaxPosition | LSA_word_cloud/title_processor.py:52 | `max` with `key=itemgetter(1)` picks a form whose count no visited form exceeds, and every form visited before it has a strictly smaller count |
| Selection.WinnerOf | LSA_word_cloud/title_processor.py:52 | the form `max` returns is in the table and is most frequent in it |
| Selection.Winners | LSA_word_cloud/title_processor.py:52-53 | `stem_word` has the same stems as `word_by_stem` and maps each to a most frequent form of that stem |
| StemFreqs.FormOrders | LSA_word_cloud/title_processor.py:52 | one `dct.iteritems()` order per form table: every form of the table listed exactly once |
| StemFreqs.StemWords | LSA_word_cloud/title_processor.py:52-53 | for any iteration orders, every counted stem gets a most frequent form of its own table, and no other stem appears |
| StemFreqs.WinnersDistinct | LSA_word_cloud/title_processor.py:46-53 | winners of distinct stems are distinct forms, because a form is filed only under its own key |
| Selection.Rekey | LSA_word_cloud/title_processor.py:55 | every entry is some visited stem's winner; every visited stem's winner is an entry; a stem that no later stem overwrites leaves its total (0 if uncounted) on its winner |
| Selection.RekeyKeepsTotals | LSA_word_cloud/title_processor.py:55 | when winners are distinct nothing is overwritten, and each stem's winner holds that stem's own total |
| Selection.RekeySizes | LSA_word_cloud/title_processor.py:55 | when winners are distinct there is one entry per visited stem, and the entries add up to the visited totals |
| StemFreqs.RekeyedFrom | LSA_word_cloud/title_processor.py:55 | every entry of the re-keyed map is some stem's winner carrying that stem's total |
| StemFreqs.FreqByWord | LSA_word_cloud/title_processor.py:55 | for any iteration order, every winner is an entry, and every entry is a winner with its stem's total. When winners are distinct: each stem's total lands on its winner, there is one entry per stem, and the sum is kept |
| StemFreqs.ResultCorrect | LSA_word_cloud/title_processor.py:44-56 | the counted tables, the chosen winners and the re-keyed map together meet `StemFreqsOf` |
| StemFreqs.StemFreqsOfWords | LSA_word_cloud/title_processor.py:44-56 | counting, choosing and re-keying the cleaned words gives a map meeting `StemFreqsOf` |
| StemFreqs.GetStemFreqs | LSA_word_cloud/title_processor.py:34-56 | `get_stem_freqs` returns a map meeting `StemFreqsOf` for the cleaned tokens, for any stem key and any iteration orders |
| StemFreqs.ResultsAgree | LSA_word_cloud/title_processor.py:52-55 | two results for the same words cover the same stems with the same totals, and the forms chosen for a stem occur equally often |
| StemFreqs.ResultUnique | LSA_word_cloud/title_processor.py:52-55 | when no stem has two equally frequent top forms, the result does not depend on iteration order |
| StemFreqs.EmptyWordDropped | LSA_word_cloud/title_processor.py:30-31 | if the key of the empty word is empty, no empty word appears in the result, because `''` is on the list |

## Left out

- `main` (lines 67-87) is left out: argument handling, the usage message and
  `exit(1)`, reading the UTF-8 input file, and writing the CSV output. All of
  it is I/O.
- `word_tokenize` (line 61) and `SnowballStemmer("english")` (lines 15, 18,
  46) are external library code. The tokenizer's output is the input
  `tokens`.
- The stemmer followed by `.upper()` (line 46) is the parameter `key`.
  Unicode case mapping is therefore not modelled on its own.
- Nothing assumes that the key of the empty word is the empty string. An
  empty token is dropped only when the key maps `""` to a stopword.
  `EmptyWordDropped` states the usual case, `key("") == ""`.
- The order in which `iteritems()` yields keys (lines 52-53, 55, 86) is not
  modelled as a particular order. It is a sequence that lists every key once,
  chosen by `Enumerate`, and every property holds for all such sequences.
- The order of the CSV rows is not modelled, because the result is a map.
- Python 2 distinctions between `str` and `unicode` are not modelled. Words
  are `seq<char>`. Python's integers are unbounded, like `nat`, so no
  overflow arises.
- StemFreqs.FreqByWord: the totals, size and sum clauses are stated only when
  no two stems share a winner. Line 55 gives no such guarantee by itself;
  `WinnersDistinct` supplies it inside `get_stem_freqs`.
