/** `get_stem_freqs` of `title_processor.py`: group the cleaned words by their
    upper-cased stem, drop the stems on the stopword list, count every stem
    and every surface form under it, pick a most frequent form per stem and
    report that form with the stem's total.

    The stemmer followed by `.upper()` is the parameter `key`: any total,
    deterministic function from a word to its grouping key. Every property
    here holds whatever that function is. */
module StemFreqs {
  import opened Stopwords
  import opened Words
  import opened Counters
  import opened Selection

  /* ---------------- what the counting pass is meant to compute ---------------- */

  /** The words that survive the stopword filter, in input order. */
  function KeptWords(key: string -> string, words: seq<string>): (kept: seq<string>)
    ensures |kept| <= |words|
    ensures forall w :: w in kept <==> w in words && !IsStopword(key(w))
  {
    if words == [] then []
    else
      var rest := KeptWords(key, words[..|words| - 1]);
      var w := words[|words| - 1];
      assert words == words[..|words| - 1] + [w];
      if IsStopword(key(w)) then rest else rest + [w]
  }

  /** The grouping keys that survive the stopword filter: the key of every
      word whose key is not a stopword. */
  function KeptStems(key: string -> string, words: seq<string>): (stems: set<string>)
    ensures forall s :: s in stems ==> !IsStopword(s)
    ensures forall w :: w in words && !IsStopword(key(w)) ==> key(w) in stems
  {
    if words == [] then {}
    else
      var init, w := words[..|words| - 1], words[|words| - 1];
      assert words == init + [w];
      KeptStems(key, init) + (if IsStopword(key(w)) then {} else {key(w)})
  }

  /** The distinct surface forms, as spelled, whose key is `stem`. */
  function FormsOf(key: string -> string, words: seq<string>, stem: string): set<string>
  {
    set w | w in words && key(w) == stem
  }

  /** How many of `words` have the key `stem`. */
  function StemTotal(key: string -> string, words: seq<string>, stem: string): nat
  {
    if words == [] then 0
    else StemTotal(key, words[..|words| - 1], stem) + (if key(words[|words| - 1]) == stem then 1 else 0)
  }

  /** A stem's total is zero exactly when no word has that stem. */
  lemma {:induction false} StemTotalZero(key: string -> string, words: seq<string>, stem: string)
    ensures StemTotal(key, words, stem) == 0 <==> FormsOf(key, words, stem) == {}
    decreases |words|
  {
    if words != [] {
      var init, w := words[..|words| - 1], words[|words| - 1];
      assert words == init + [w];
      StemTotalZero(key, init, stem);
      assert FormsOf(key, words, stem) ==
        FormsOf(key, init, stem) + (if key(w) == stem then {w} else {});
    }
  }

  /** How the surviving words and stems grow when one more word is appended. */
  lemma AppendKept(key: string -> string, words: seq<string>, word: string)
    ensures KeptStems(key, words + [word]) ==
              KeptStems(key, words) + (if IsStopword(key(word)) then {} else {key(word)})
    ensures |KeptWords(key, words + [word])| ==
              |KeptWords(key, words)| + (if IsStopword(key(word)) then 0 else 1)
  {
    var ws := words + [word];
    assert ws[..|ws| - 1] == words;
    assert forall w :: w in ws <==> w in words || w == word;
  }

  /** How the forms and the total of one stem grow when one more word is
      appended. */
  lemma AppendForm(key: string -> string, words: seq<string>, word: string, stem: string)
    ensures FormsOf(key, words + [word], stem) ==
              FormsOf(key, words, stem) + (if key(word) == stem then {word} else {})
    ensures StemTotal(key, words + [word], stem) ==
              StemTotal(key, words, stem) + (if key(word) == stem then 1 else 0)
  {
    var ws := words + [word];
    assert ws[..|ws| - 1] == words;
    assert forall w :: w in ws <==> w in words || w == word;
  }

  /** A word whose key is a stopword changes none of the quantities above
      for any stem that is counted. */
  lemma StopwordWordIgnored(key: string -> string, words: seq<string>, w: string)
    requires IsStopword(key(w))
    ensures KeptWords(key, words + [w]) == KeptWords(key, words)
    ensures KeptStems(key, words + [w]) == KeptStems(key, words)
    ensures forall s :: !IsStopword(s) ==>
              && FormsOf(key, words + [w], s) == FormsOf(key, words, s)
              && StemTotal(key, words + [w], s) == StemTotal(key, words, s)
    ensures forall s, v :: !IsStopword(s) && v in FormsOf(key, words, s) ==>
              multiset(words + [w])[v] == multiset(words)[v]
  {
    AppendKept(key, words, w);
    forall s | !IsStopword(s)
      ensures FormsOf(key, words + [w], s) == FormsOf(key, words, s)
      ensures StemTotal(key, words + [w], s) == StemTotal(key, words, s)
    {
      AppendForm(key, words, w, s);
    }
    assert multiset(words + [w]) == multiset(words) + multiset{w};
  }

  /** A stem that is not a stopword survives exactly when some word has it. */
  lemma {:induction false} KeptStemTotal(key: string -> string, words: seq<string>, stem: string)
    requires !IsStopword(stem)
    ensures stem in KeptStems(key, words) <==> StemTotal(key, words, stem) > 0
    decreases |words|
  {
    if words != [] {
      KeptStemTotal(key, words[..|words| - 1], stem);
    }
  }

  /** A stem's total is the sum of the counts of its surface forms: a table
      holding exactly the forms of `stem`, each with its number of
      occurrences, sums to `StemTotal`. */
  lemma {:induction false} FormCountsSum(key: string -> string, words: seq<string>, stem: string,
                                         table: map<string, nat>)
    requires table.Keys == FormsOf(key, words, stem)
    requires forall w :: w in table ==> table[w] == multiset(words)[w]
    ensures Sum(table) == StemTotal(key, words, stem)
    decreases |words|
  {
    if words == [] {
      assert table == map[];
    } else {
      var init, x := words[..|words| - 1], words[|words| - 1];
      assert words == init + [x];
      AppendForm(key, init, x, stem);
      if key(x) != stem {
        assert multiset(words) == multiset(init) + multiset{x};
        FormCountsSum(key, init, stem, table);
      } else {
        TakeBackForm(key, init, x, table);
        FormCountsSum(key, init, stem, Decrement(table, x));
        SumDecrement(table, x);
      }
    }
  }

  /** The form table of `words + [x]` for the stem of `x`, with one
      occurrence of `x` taken back out: the form table of `words`. */
  lemma TakeBackForm(key: string -> string, words: seq<string>, x: string, table: map<string, nat>)
    requires table.Keys == FormsOf(key, words + [x], key(x))
    requires forall w :: w in table ==> table[w] == multiset(words + [x])[w]
    ensures x in table && table[x] > 0
    ensures Decrement(table, x).Keys == FormsOf(key, words, key(x))
    ensures forall w :: w in Decrement(table, x) ==> Decrement(table, x)[w] == multiset(words)[w]
  {
    AppendForm(key, words, x, key(x));
    assert multiset(words + [x]) == multiset(words) + multiset{x};
    if table[x] == 1 {
      assert x !in words;
    } else {
      assert x in words;
    }
  }

  /** The stem totals add up to the number of words that survive the
      stopword filter. */
  lemma {:induction false} StemTotalsSum(key: string -> string, words: seq<string>,
                                         totals: map<string, nat>)
    requires totals.Keys == KeptStems(key, words)
    requires forall s :: s in totals ==> totals[s] == StemTotal(key, words, s)
    ensures Sum(totals) == |KeptWords(key, words)|
    decreases |words|
  {
    if words == [] {
      assert totals == map[];
    } else {
      var init, x := words[..|words| - 1], words[|words| - 1];
      assert words == init + [x];
      var rest := TotalsBefore(key, init, x, totals);
      StemTotalsSum(key, init, rest);
    }
  }

  /** The totals of `words + [x]` with the last word taken back out: they are
      the totals of `words`, and their sum is one less unless `x` was
      dropped. */
  lemma TotalsBefore(key: string -> string, words: seq<string>, x: string, totals: map<string, nat>)
    returns (rest: map<string, nat>)
    requires totals.Keys == KeptStems(key, words + [x])
    requires forall s :: s in totals ==> totals[s] == StemTotal(key, words + [x], s)
    ensures rest.Keys == KeptStems(key, words)
    ensures forall s :: s in rest ==> rest[s] == StemTotal(key, words, s)
    ensures Sum(totals) - |KeptWords(key, words + [x])| == Sum(rest) - |KeptWords(key, words)|
  {
    AppendKept(key, words, x);
    forall s | s in totals ensures totals[s] == StemTotal(key, words, s) + (if s == key(x) then 1 else 0) {
      AppendForm(key, words, x, s);
    }
    if IsStopword(key(x)) {
      rest := totals;
    } else {
      rest := TakeBack(key, words, totals, key(x));
    }
  }

  /** Taking one occurrence of the surviving stem `s0` back out of `totals`. */
  lemma TakeBack(key: string -> string, words: seq<string>, totals: map<string, nat>, s0: string)
    returns (rest: map<string, nat>)
    requires !IsStopword(s0)
    requires totals.Keys == KeptStems(key, words) + {s0}
    requires forall s :: s in totals ==> totals[s] == StemTotal(key, words, s) + (if s == s0 then 1 else 0)
    ensures rest.Keys == KeptStems(key, words)
    ensures forall s :: s in rest ==> rest[s] == StemTotal(key, words, s)
    ensures Sum(rest) + 1 == Sum(totals)
  {
    rest := Decrement(totals, s0);
    SumDecrement(totals, s0);
    DecrementKeys(key, words, totals, s0);
  }

  /** The keys left after taking back one occurrence of `s0`. */
  lemma DecrementKeys(key: string -> string, words: seq<string>, totals: map<string, nat>, s0: string)
    requires !IsStopword(s0)
    requires totals.Keys == KeptStems(key, words) + {s0}
    requires s0 in totals && totals[s0] == StemTotal(key, words, s0) + 1
    ensures Decrement(totals, s0).Keys == KeptStems(key, words)
  {
    KeptStemTotal(key, words, s0);
  }

  /* ---------------- the counting pass (lines 45-49) ---------------- */

  /** `word_by_stem`, a `defaultdict` of per-form counters, and `stem_freq`,
      a `Counter`, as they stand at some point of the pass. */
  datatype Tables = Tables(wordByStem: map<string, map<string, nat>>, stemFreq: map<string, nat>)

  /** `word_by_stem[stem]` on the `defaultdict`: the form table of `stem`,
      empty when the stem was never counted. */
  function FormTable(wordByStem: map<string, map<string, nat>>, stem: string): map<string, nat>
  {
    if stem in wordByStem then wordByStem[stem] else map[]
  }

  /** The two tables after the pass has gone through `words`, one word at a
      time: a word whose key is a stopword leaves them alone, any other adds
      one to its form count and one to its stem total. */
  function Tally(key: string -> string, words: seq<string>): Tables
  {
    if words == [] then Tables(map[], map[])
    else Step(key, Tally(key, words[..|words| - 1]), words[|words| - 1])
  }

  /** One iteration of the pass (lines 46-49). */
  function Step(key: string -> string, t: Tables, word: string): Tables
  {
    var stem := key(word);
    if IsStopword(stem) then t
    else
      var forms := FormTable(t.wordByStem, stem);
      Tables(t.wordByStem[stem := forms[word := Get(forms, word) + 1]],
             t.stemFreq[stem := Get(t.stemFreq, stem) + 1])
  }

  /** The stem totals are exact: each is the number of words with the stem. */
  ghost predicate TotalsExact(key: string -> string, words: seq<string>, stemFreq: map<string, nat>)
  {
    forall s :: s in stemFreq ==> stemFreq[s] == StemTotal(key, words, s)
  }

  /** The form tables are exact: each holds the forms with its stem, each
      with its number of occurrences. */
  ghost predicate FormsExact(key: string -> string, words: seq<string>,
                             wordByStem: map<string, map<string, nat>>)
  {
    forall s :: s in wordByStem ==>
      && wordByStem[s].Keys == FormsOf(key, words, s)
      && forall w :: w in wordByStem[s] ==> wordByStem[s][w] == multiset(words)[w]
  }

  /** `t` holds exactly the counts of `words`: one entry per surviving stem
      in both tables, and exact totals and form tables. */
  ghost predicate Counted(key: string -> string, words: seq<string>, t: Tables)
  {
    && t.wordByStem.Keys == t.stemFreq.Keys == KeptStems(key, words)
    && TotalsExact(key, words, t.stemFreq)
    && FormsExact(key, words, t.wordByStem)
  }

  /** Counting a word with a surviving stem adds one to that stem's total and
      keeps every total exact. */
  lemma CountTotal(key: string -> string, words: seq<string>, stemFreq: map<string, nat>, word: string)
    requires stemFreq.Keys == KeptStems(key, words) && TotalsExact(key, words, stemFreq)
    requires !IsStopword(key(word))
    ensures TotalsExact(key, words + [word], stemFreq[key(word) := Get(stemFreq, key(word)) + 1])
  {
    var stem := key(word);
    KeptStemTotal(key, words, stem);
    forall s | s in stemFreq[stem := Get(stemFreq, stem) + 1]
      ensures stemFreq[stem := Get(stemFreq, stem) + 1][s] == StemTotal(key, words + [word], s)
    {
      AppendForm(key, words, word, s);
    }
  }

  /** Counting a word with a surviving stem adds one to its count in its
      stem's form table and keeps every form table exact. */
  lemma CountForm(key: string -> string, words: seq<string>,
                  wordByStem: map<string, map<string, nat>>, word: string)
    requires wordByStem.Keys == KeptStems(key, words) && FormsExact(key, words, wordByStem)
    requires !IsStopword(key(word))
    ensures
      var forms := FormTable(wordByStem, key(word));
      FormsExact(key, words + [word], wordByStem[key(word) := forms[word := Get(forms, word) + 1]])
  {
    var stem := key(word);
    var forms := FormTable(wordByStem, stem);
    assert forms.Keys == FormsOf(key, words, stem) by {
      if stem !in wordByStem {
        KeptStemTotal(key, words, stem);
        StemTotalZero(key, words, stem);
      }
    }
    CountOwnForm(key, words, forms, word);
    CountOtherForms(key, words, wordByStem, word);
  }

  /** The form table of the counted word's stem, after the count. */
  lemma CountOwnForm(key: string -> string, words: seq<string>, forms: map<string, nat>, word: string)
    requires forms.Keys == FormsOf(key, words, key(word))
    requires forall w :: w in forms ==> forms[w] == multiset(words)[w]
    ensures forms[word := Get(forms, word) + 1].Keys == FormsOf(key, words + [word], key(word))
    ensures forall w :: w in forms[word := Get(forms, word) + 1] ==>
              forms[word := Get(forms, word) + 1][w] == multiset(words + [word])[w]
  {
    assert multiset(words + [word]) == multiset(words) + multiset{word};
    AppendForm(key, words, word, key(word));
    assert Get(forms, word) == multiset(words)[word];
  }

  /** The form tables of the other stems are not touched by the count and
      stay exact. */
  lemma CountOtherForms(key: string -> string, words: seq<string>,
                        wordByStem: map<string, map<string, nat>>, word: string)
    requires FormsExact(key, words, wordByStem)
    ensures forall s :: s in wordByStem && s != key(word) ==>
              && wordByStem[s].Keys == FormsOf(key, words + [word], s)
              && forall v :: v in wordByStem[s] ==> wordByStem[s][v] == multiset(words + [word])[v]
  {
    assert multiset(words + [word]) == multiset(words) + multiset{word};
    forall s | s in wordByStem && s != key(word)
      ensures wordByStem[s].Keys == FormsOf(key, words + [word], s)
      ensures forall v :: v in wordByStem[s] ==> wordByStem[s][v] == multiset(words + [word])[v]
    {
      AppendForm(key, words, word, s);
    }
  }

  /** An iteration on a word with a surviving stem increments exactly one
      form count and one stem total. */
  lemma StepCounts(key: string -> string, t: Tables, word: string)
    requires !IsStopword(key(word))
    ensures
      var stem, forms := key(word), FormTable(t.wordByStem, key(word));
      && Step(key, t, word).wordByStem == t.wordByStem[stem := forms[word := Get(forms, word) + 1]]
      && Step(key, t, word).stemFreq == t.stemFreq[stem := Get(t.stemFreq, stem) + 1]
  {
  }

  /** An iteration on a word whose key is a stopword keeps the tables exact. */
  lemma SkipStep(key: string -> string, words: seq<string>, t: Tables, word: string)
    requires Counted(key, words, t)
    requires IsStopword(key(word))
    ensures Counted(key, words + [word], Step(key, t, word))
  {
    AppendKept(key, words, word);
    StopwordWordIgnored(key, words, word);
    assert TotalsExact(key, words + [word], t.stemFreq);
    assert FormsExact(key, words + [word], t.wordByStem);
  }

  /** An iteration on a word with a surviving stem keeps the tables exact. */
  lemma CountStep(key: string -> string, words: seq<string>, t: Tables, word: string)
    requires Counted(key, words, t)
    requires !IsStopword(key(word))
    ensures Counted(key, words + [word], Step(key, t, word))
  {
    StepKeys(key, words, t, word);
    StepTotals(key, words, t, word);
    StepForms(key, words, t, word);
  }

  /** A counted word's stem is a key of both tables afterwards. */
  lemma StepKeys(key: string -> string, words: seq<string>, t: Tables, word: string)
    requires t.wordByStem.Keys == t.stemFreq.Keys == KeptStems(key, words)
    requires !IsStopword(key(word))
    ensures Step(key, t, word).wordByStem.Keys == Step(key, t, word).stemFreq.Keys
              == KeptStems(key, words + [word])
  {
    AppendKept(key, words, word);
    StepCounts(key, t, word);
  }

  /** `CountTotal`, for the tables an iteration produces. */
  lemma StepTotals(key: string -> string, words: seq<string>, t: Tables, word: string)
    requires t.stemFreq.Keys == KeptStems(key, words) && TotalsExact(key, words, t.stemFreq)
    requires !IsStopword(key(word))
    ensures TotalsExact(key, words + [word], Step(key, t, word).stemFreq)
  {
    StepCounts(key, t, word);
    CountTotal(key, words, t.stemFreq, word);
  }

  /** `CountForm`, for the tables an iteration produces. */
  lemma StepForms(key: string -> string, words: seq<string>, t: Tables, word: string)
    requires t.wordByStem.Keys == KeptStems(key, words) && FormsExact(key, words, t.wordByStem)
    requires !IsStopword(key(word))
    ensures FormsExact(key, words + [word], Step(key, t, word).wordByStem)
  {
    StepCounts(key, t, word);
    CountForm(key, words, t.wordByStem, word);
  }

  /** The pass counts exactly: after any prefix of the input, the tables
      hold the counts of that prefix. */
  lemma {:induction false} TallyCounted(key: string -> string, words: seq<string>)
    ensures Counted(key, words, Tally(key, words))
    decreases |words|
  {
    if words != [] {
      var init, word := words[..|words| - 1], words[|words| - 1];
      assert words == init + [word];
      TallyCounted(key, init);
      if IsStopword(key(word)) {
        SkipStep(key, init, Tally(key, init), word);
      } else {
        CountStep(key, init, Tally(key, init), word);
      }
    }
  }

  /** What exact tables say about each entry: only surviving stems, only
      forms with that stem, each seen at least once; and how the counts add
      up. */
  lemma CountedEntries(key: string -> string, words: seq<string>, t: Tables)
    requires Counted(key, words, t)
    ensures t.wordByStem.Keys == t.stemFreq.Keys == KeptStems(key, words)
    ensures forall s :: s in t.stemFreq ==> !IsStopword(s)
    ensures forall s :: s in t.stemFreq ==> t.stemFreq[s] == StemTotal(key, words, s)
    ensures forall s :: s in t.wordByStem ==> t.wordByStem[s].Keys == FormsOf(key, words, s)
    ensures forall s, w :: s in t.wordByStem && w in t.wordByStem[s] ==>
              key(w) == s && t.wordByStem[s][w] == multiset(words)[w] > 0
    ensures forall s :: s in t.wordByStem ==> Sum(t.wordByStem[s]) == t.stemFreq[s]
    ensures Sum(t.stemFreq) == |KeptWords(key, words)|
  {
    forall s | s in t.wordByStem ensures Sum(t.wordByStem[s]) == t.stemFreq[s] {
      FormCountsSum(key, words, s, t.wordByStem[s]);
    }
    StemTotalsSum(key, words, t.stemFreq);
  }

  /** One pass over `words`: `word_by_stem[stem][word] += 1` and
      `stem_freq[stem] += 1` for every word whose key is not a stopword.
      Afterwards each surviving stem has a table of its surface forms with
      their exact counts, and its total is both the number of its words and
      the sum of that table. */
  method CountStems(key: string -> string, words: seq<string>)
    returns (wordByStem: map<string, map<string, nat>>, stemFreq: map<string, nat>)
    ensures wordByStem.Keys == stemFreq.Keys == KeptStems(key, words)
    ensures forall s :: s in stemFreq ==> !IsStopword(s)
    ensures forall s :: s in stemFreq ==> stemFreq[s] == StemTotal(key, words, s)
    ensures forall s :: s in wordByStem ==> wordByStem[s].Keys == FormsOf(key, words, s)
    ensures forall s, w :: s in wordByStem && w in wordByStem[s] ==>
              key(w) == s && wordByStem[s][w] == multiset(words)[w] > 0
    ensures forall s :: s in wordByStem ==> Sum(wordByStem[s]) == stemFreq[s]
    ensures Sum(stemFreq) == |KeptWords(key, words)|
  {
    wordByStem, stemFreq := map[], map[];
    var i := 0;
    while i < |words|
      invariant 0 <= i <= |words|
      invariant Tables(wordByStem, stemFreq) == Tally(key, words[..i])
    {
      var word := words[i];
      var stem := key(word);
      TallyNext(key, words, i);
      if !IsStopword(stem) {
        var forms := FormTable(wordByStem, stem);
        wordByStem := wordByStem[stem := forms[word := Get(forms, word) + 1]];
        stemFreq := stemFreq[stem := Get(stemFreq, stem) + 1];
      }
      i := i + 1;
    }
    assert words[..i] == words;
    TallyCounted(key, words);
    CountedEntries(key, words, Tables(wordByStem, stemFreq));
  }

  /** One more iteration of the pass is one more `Step`. */
  lemma TallyNext(key: string -> string, words: seq<string>, i: nat)
    requires i < |words|
    ensures Tally(key, words[..i + 1]) == Step(key, Tally(key, words[..i]), words[i])
  {
    assert words[..i + 1][..i] == words[..i];
  }

  /* ---------------- winners and the result (lines 52-56) ---------------- */

  /** Every surviving stem has at least one recorded form, so `max` always
      has something to choose from. */
  lemma FormTablesNonEmpty(key: string -> string, words: seq<string>,
                           wordByStem: map<string, map<string, nat>>)
    requires wordByStem.Keys == KeptStems(key, words)
    requires forall s :: s in wordByStem ==> wordByStem[s].Keys == FormsOf(key, words, s)
    ensures forall s :: s in wordByStem ==> wordByStem[s] != map[]
  {
    forall s | s in wordByStem ensures wordByStem[s] != map[] {
      KeptStemTotal(key, words, s);
      StemTotalZero(key, words, s);
    }
  }

  /** An iteration order for every form table, as `iteritems()` yields them. */
  method FormOrders(wordByStem: map<string, map<string, nat>>) returns (orders: map<string, seq<string>>)
    ensures forall s :: s in wordByStem ==> s in orders && Enumerates(orders[s], wordByStem[s].Keys)
  {
    orders := map[];
    var left := wordByStem.Keys;
    while left != {}
      invariant left <= wordByStem.Keys
      invariant forall s :: s in wordByStem && s !in left ==>
                  s in orders && Enumerates(orders[s], wordByStem[s].Keys)
      decreases |left|
    {
      var s :| s in left;
      var order := Enumerate(wordByStem[s].Keys);
      orders := orders[s := order];
      left := left - {s};
    }
  }

  /** Winning forms of distinct stems are distinct: a form recorded under a
      stem has that stem as its key, and the key of a form is unique. */
  lemma WinnersDistinct(key: string -> string, wordByStem: map<string, map<string, nat>>,
                        stemWord: map<string, string>)
    requires forall s, w :: s in wordByStem && w in wordByStem[s] ==> key(w) == s
    requires forall s :: s in stemWord ==> s in wordByStem && stemWord[s] in wordByStem[s]
    ensures Injective(stemWord)
  {
    forall a, b | a in stemWord && b in stemWord && a != b ensures stemWord[a] != stemWord[b] {
      assert key(stemWord[a]) == a && key(stemWord[b]) == b;
    }
  }

  /** Each entry is a word as spelled, whose stem is not a stopword, with the
      number of words sharing its stem. */
  ghost predicate EntriesCounted(key: string -> string, words: seq<string>, freq: map<string, nat>)
  {
    forall w :: w in freq ==> w in words && !IsStopword(key(w)) && freq[w] == StemTotal(key, words, key(w))
  }

  /** No word with the stem of an entry occurs more often than the entry. */
  ghost predicate EntriesMostFrequent(key: string -> string, words: seq<string>, freq: map<string, nat>)
  {
    forall w, v :: w in freq && v in words && key(v) == key(w) ==> multiset(words)[v] <= multiset(words)[w]
  }

  /** The stems of the entries of a result. */
  function StemsOf(key: string -> string, freq: map<string, nat>): set<string>
  {
    set w | w in freq :: key(w)
  }

  /** Every word whose stem is not a stopword finds an entry with its stem,
      and no stem has two. */
  ghost predicate OneEntryPerStem(key: string -> string, words: seq<string>, freq: map<string, nat>)
  {
    && (forall v :: v in words && !IsStopword(key(v)) ==> key(v) in StemsOf(key, freq))
    && (forall w, v :: w in freq && v in freq && key(w) == key(v) ==> w == v)
  }

  /** What the result of `get_stem_freqs` is, for the cleaned words `words`:
      exact entries, each a most frequent form, one per surviving stem, and
      the entries add up to the number of words that survive the filter. */
  ghost predicate StemFreqsOf(key: string -> string, words: seq<string>, freq: map<string, nat>)
  {
    && EntriesCounted(key, words, freq)
    && EntriesMostFrequent(key, words, freq)
    && OneEntryPerStem(key, words, freq)
    && |freq| == |KeptStems(key, words)|
    && Sum(freq) == |KeptWords(key, words)|
  }

  /** Two results for the same words differ at most in which of several
      equally frequent forms stands for a stem: they have entries for the
      same stems, with the same totals, and forms seen equally often. */
  lemma ResultsAgree(key: string -> string, words: seq<string>, f1: map<string, nat>, f2: map<string, nat>)
    requires EntriesCounted(key, words, f1) && EntriesMostFrequent(key, words, f1)
    requires EntriesCounted(key, words, f2) && EntriesMostFrequent(key, words, f2)
    requires OneEntryPerStem(key, words, f2)
    ensures StemsOf(key, f1) <= StemsOf(key, f2)
    ensures forall w, v :: w in f1 && v in f2 && key(w) == key(v) ==>
              f1[w] == f2[v] && multiset(words)[w] == multiset(words)[v]
  {
    forall w | w in f1 ensures key(w) in StemsOf(key, f2) {
      assert w in words && !IsStopword(key(w));
    }
    forall w, v | w in f1 && v in f2 && key(w) == key(v)
      ensures f1[w] == f2[v] && multiset(words)[w] == multiset(words)[v]
    {
      assert w in words && v in words;
      assert multiset(words)[v] <= multiset(words)[w];
      assert multiset(words)[w] <= multiset(words)[v];
    }
  }

  /** No stem has two different forms that are both seen most often. */
  ghost predicate NoTopTies(key: string -> string, words: seq<string>)
  {
    forall w, v :: w in words && v in words && w != v && key(w) == key(v) &&
                   multiset(words)[w] == multiset(words)[v] ==>
      exists u :: u in words && key(u) == key(w) && multiset(words)[u] > multiset(words)[w]
  }

  /** Without ties at the top, the iteration orders do not matter: any two
      results of `StemFreqsOf` for the same words are equal. */
  lemma ResultUnique(key: string -> string, words: seq<string>, f1: map<string, nat>, f2: map<string, nat>)
    requires NoTopTies(key, words)
    requires EntriesCounted(key, words, f1) && EntriesMostFrequent(key, words, f1) && OneEntryPerStem(key, words, f1)
    requires EntriesCounted(key, words, f2) && EntriesMostFrequent(key, words, f2) && OneEntryPerStem(key, words, f2)
    ensures f1 == f2
  {
    SameEntries(key, words, f1, f2);
    SameEntries(key, words, f2, f1);
    assert f1.Keys == f2.Keys;
  }

  /** Every entry of `f1` is an entry of `f2` with the same total, when there
      are no ties at the top. */
  lemma SameEntries(key: string -> string, words: seq<string>, f1: map<string, nat>, f2: map<string, nat>)
    requires NoTopTies(key, words)
    requires EntriesCounted(key, words, f1) && EntriesMostFrequent(key, words, f1)
    requires EntriesCounted(key, words, f2) && EntriesMostFrequent(key, words, f2) && OneEntryPerStem(key, words, f2)
    ensures forall w :: w in f1 ==> w in f2 && f2[w] == f1[w]
  {
    ResultsAgree(key, words, f1, f2);
    forall w | w in f1 ensures w in f2 && f2[w] == f1[w] {
      assert key(w) in StemsOf(key, f2);
      var v :| v in f2 && key(v) == key(w);
      assert multiset(words)[w] == multiset(words)[v];
      if v != w {
        assert false;
      }
    }
  }

  /** The empty string is on the stopword list, so when the key of the
      empty word is itself empty, a token stripped down to nothing never
      makes it into the result. */
  lemma EmptyWordDropped(key: string -> string, words: seq<string>, freq: map<string, nat>)
    requires key("") == ""
    requires StemFreqsOf(key, words, freq)
    ensures "" !in freq
  {
    IsStopwordIn("");
  }

  /** Lines 52-53, `stem_word`: for every stem, the form `max` finds in
      its table, visiting each table in the order the dict yields it. */
  method StemWords(wordByStem: map<string, map<string, nat>>) returns (stemWord: map<string, string>)
    requires forall s :: s in wordByStem ==> wordByStem[s] != map[]
    ensures stemWord.Keys == wordByStem.Keys
    ensures forall s :: s in stemWord ==> IsMostFrequent(wordByStem[s], stemWord[s])
  {
    var orders := FormOrders(wordByStem);
    stemWord := Winners(wordByStem, orders);
  }

  /** Every entry of the re-keyed map is the winner of some stem and holds
      that stem's total. */
  lemma RekeyedFrom(stemWord: map<string, string>, stemFreq: map<string, nat>, stems: seq<string>)
    requires forall s :: s in stems ==> s in stemWord
    ensures forall w :: w in Rekey(stemWord, stemFreq, stems) ==>
              exists s :: s in stemWord && stemWord[s] == w && Rekey(stemWord, stemFreq, stems)[w] == Get(stemFreq, s)
  {
    var freq := Rekey(stemWord, stemFreq, stems);
    forall w | w in freq
      ensures exists s :: s in stemWord && stemWord[s] == w && freq[w] == Get(stemFreq, s)
    {
      var i := LastIndex(stemWord, stems, w);
      assert stemWord[stems[i]] == w && freq[w] == Get(stemFreq, stems[i]);
    }
  }

  /** The last position whose stem has the winner `w`. */
  function LastIndex(stemWord: map<string, string>, stems: seq<string>, w: string): (i: nat)
    requires forall s :: s in stems ==> s in stemWord
    requires exists i :: 0 <= i < |stems| && stemWord[stems[i]] == w
    ensures i < |stems| && stemWord[stems[i]] == w && LastWith(stemWord, stems, i)
    decreases |stems|
  {
    var n := |stems| - 1;
    if stemWord[stems[n]] == w then n
    else
      var j :| 0 <= j < |stems| && stemWord[stems[j]] == w;
      assert j < n;
      LastIndex(stemWord, stems[..n], w)
  }

  /** Line 55, `freq`: each stem's winner mapped to the stem's total, the
      stems visited in the order the dict yields them. Every entry comes
      from some stem; when no two stems share a winner, every stem's winner
      holds that stem's own total, there is one entry per stem and, when
      both tables have the same stems, the totals add up as before. */
  method FreqByWord(stemWord: map<string, string>, stemFreq: map<string, nat>) returns (freq: map<string, nat>)
    ensures forall s :: s in stemWord ==> stemWord[s] in freq
    ensures forall w :: w in freq ==> exists s :: s in stemWord && stemWord[s] == w && freq[w] == Get(stemFreq, s)
    ensures Injective(stemWord) ==> forall s :: s in stemWord ==> freq[stemWord[s]] == Get(stemFreq, s)
    ensures Injective(stemWord) ==> |freq| == |stemWord|
    ensures Injective(stemWord) && stemWord.Keys == stemFreq.Keys ==> Sum(freq) == Sum(stemFreq)
  {
    var stems := Enumerate(stemWord.Keys);
    freq := Rekey(stemWord, stemFreq, stems);
    RekeyedFrom(stemWord, stemFreq, stems);
    forall s | s in stemWord ensures stemWord[s] in freq {
      assert s in stems;
    }
    if Injective(stemWord) {
      RekeyKeepsTotals(stemWord, stemFreq, stems);
      RekeySizes(stemWord, stemFreq, stems);
      if stemWord.Keys == stemFreq.Keys {
        SumAlongEnumeration(stemFreq, stems);
      }
    }
  }

  /** Every entry of the re-keyed map is the winner of its own stem, with
      that stem's total. */
  lemma ResultWinners(key: string -> string, wordByStem: map<string, map<string, nat>>,
                      stemFreq: map<string, nat>, stemWord: map<string, string>, freq: map<string, nat>)
    requires forall s, w :: s in wordByStem && w in wordByStem[s] ==> key(w) == s
    requires forall s :: s in stemWord ==> s in wordByStem && stemWord[s] in wordByStem[s]
    requires forall w :: w in freq ==> exists s :: s in stemWord && stemWord[s] == w && freq[w] == Get(stemFreq, s)
    ensures forall w :: w in freq ==>
              key(w) in stemWord && stemWord[key(w)] == w && freq[w] == Get(stemFreq, key(w))
  {
    forall w | w in freq
      ensures key(w) in stemWord && stemWord[key(w)] == w && freq[w] == Get(stemFreq, key(w))
    {
      var s :| s in stemWord && stemWord[s] == w && freq[w] == Get(stemFreq, s);
      assert key(w) == s;
    }
  }

  /** Every entry of the result is a word, whose stem is not a stopword,
      with the number of words that share its stem. */
  lemma ResultEntries(key: string -> string, words: seq<string>,
                      wordByStem: map<string, map<string, nat>>, stemFreq: map<string, nat>,
                      stemWord: map<string, string>, freq: map<string, nat>)
    requires forall s :: s in stemFreq ==> !IsStopword(s) && stemFreq[s] == StemTotal(key, words, s)
    requires forall s, w :: s in wordByStem && w in wordByStem[s] ==> multiset(words)[w] > 0
    requires stemWord.Keys == stemFreq.Keys
    requires forall s :: s in stemWord ==> s in wordByStem && stemWord[s] in wordByStem[s]
    requires forall w :: w in freq ==>
               key(w) in stemWord && stemWord[key(w)] == w && freq[w] == Get(stemFreq, key(w))
    ensures forall w :: w in freq ==>
              w in words && !IsStopword(key(w)) && freq[w] == StemTotal(key, words, key(w))
  {
    forall w | w in freq
      ensures w in words && !IsStopword(key(w)) && freq[w] == StemTotal(key, words, key(w))
    {
      assert multiset(words)[w] > 0;
    }
  }

  /** No word with the stem of an entry occurs more often than the entry. */
  lemma ResultMaximal(key: string -> string, words: seq<string>,
                      wordByStem: map<string, map<string, nat>>, stemWord: map<string, string>,
                      freq: map<string, nat>)
    requires forall s :: s in wordByStem ==> wordByStem[s].Keys == FormsOf(key, words, s)
    requires forall s, w :: s in wordByStem && w in wordByStem[s] ==> wordByStem[s][w] == multiset(words)[w]
    requires forall s :: s in stemWord ==> s in wordByStem && IsMostFrequent(wordByStem[s], stemWord[s])
    requires forall w :: w in freq ==> key(w) in stemWord && stemWord[key(w)] == w
    ensures forall w, v :: w in freq && v in words && key(v) == key(w) ==>
              multiset(words)[v] <= multiset(words)[w]
  {
    forall w, v | w in freq && v in words && key(v) == key(w)
      ensures multiset(words)[v] <= multiset(words)[w]
    {
      assert v in FormsOf(key, words, key(w));
    }
  }

  /** Every word whose stem survives finds an entry with its stem, and no
      stem has two. */
  lemma ResultCovers(key: string -> string, words: seq<string>,
                     stemWord: map<string, string>, freq: map<string, nat>)
    requires forall v :: v in words && !IsStopword(key(v)) ==> key(v) in stemWord
    requires forall s :: s in stemWord ==> stemWord[s] in freq && key(stemWord[s]) == s
    requires forall w :: w in freq ==> key(w) in stemWord && stemWord[key(w)] == w
    ensures forall v :: v in words && !IsStopword(key(v)) ==> key(v) in StemsOf(key, freq)
    ensures forall w, v :: w in freq && v in freq && key(w) == key(v) ==> w == v
  {
    forall v | v in words && !IsStopword(key(v)) ensures key(v) in StemsOf(key, freq) {
      assert stemWord[key(v)] in freq;
    }
  }

  /** The entries of the result: each is a word with its stem's total, and
      no word with the same stem occurs more often. */
  lemma ResultEntriesCorrect(key: string -> string, words: seq<string>,
                             wordByStem: map<string, map<string, nat>>, stemFreq: map<string, nat>,
                             stemWord: map<string, string>, freq: map<string, nat>)
    requires wordByStem.Keys == stemFreq.Keys == stemWord.Keys
    requires forall s :: s in stemFreq ==> !IsStopword(s) && stemFreq[s] == StemTotal(key, words, s)
    requires forall s :: s in wordByStem ==> wordByStem[s].Keys == FormsOf(key, words, s)
    requires forall s, w :: s in wordByStem && w in wordByStem[s] ==>
               key(w) == s && wordByStem[s][w] == multiset(words)[w] > 0
    requires forall s :: s in stemWord ==> IsMostFrequent(wordByStem[s], stemWord[s])
    requires forall w :: w in freq ==> exists s :: s in stemWord && stemWord[s] == w && freq[w] == Get(stemFreq, s)
    ensures EntriesCounted(key, words, freq) && EntriesMostFrequent(key, words, freq)
  {
    ResultWinners(key, wordByStem, stemFreq, stemWord, freq);
    ResultEntries(key, words, wordByStem, stemFreq, stemWord, freq);
    ResultMaximal(key, words, wordByStem, stemWord, freq);
  }

  /** The stems of the result: every surviving stem has exactly one entry. */
  lemma ResultStemsCorrect(key: string -> string, words: seq<string>,
                           wordByStem: map<string, map<string, nat>>, stemFreq: map<string, nat>,
                           stemWord: map<string, string>, freq: map<string, nat>)
    requires wordByStem.Keys == stemWord.Keys
    requires forall v :: v in words && !IsStopword(key(v)) ==> key(v) in stemWord
    requires forall s, w :: s in wordByStem && w in wordByStem[s] ==>
               key(w) == s && wordByStem[s][w] == multiset(words)[w] > 0
    requires forall s :: s in stemWord ==> IsMostFrequent(wordByStem[s], stemWord[s])
    requires forall s :: s in stemWord ==> stemWord[s] in freq
    requires forall w :: w in freq ==> exists s :: s in stemWord && stemWord[s] == w && freq[w] == Get(stemFreq, s)
    ensures OneEntryPerStem(key, words, freq)
  {
    ResultWinners(key, wordByStem, stemFreq, stemWord, freq);
    ResultCovers(key, words, stemWord, freq);
  }

  /** The counted tables, the winners and the re-keyed map together give the
      result `StemFreqsOf` describes. */
  lemma ResultCorrect(key: string -> string, words: seq<string>,
                      wordByStem: map<string, map<string, nat>>, stemFreq: map<string, nat>,
                      stemWord: map<string, string>, freq: map<string, nat>)
    requires wordByStem.Keys == stemFreq.Keys == stemWord.Keys == KeptStems(key, words)
    requires forall s :: s in stemFreq ==> !IsStopword(s) && stemFreq[s] == StemTotal(key, words, s)
    requires forall s :: s in wordByStem ==> wordByStem[s].Keys == FormsOf(key, words, s)
    requires forall s, w :: s in wordByStem && w in wordByStem[s] ==>
               key(w) == s && wordByStem[s][w] == multiset(words)[w] > 0
    requires Sum(stemFreq) == |KeptWords(key, words)|
    requires forall s :: s in stemWord ==> IsMostFrequent(wordByStem[s], stemWord[s])
    requires forall s :: s in stemWord ==> stemWord[s] in freq
    requires forall w :: w in freq ==> exists s :: s in stemWord && stemWord[s] == w && freq[w] == Get(stemFreq, s)
    requires |freq| == |stemWord|
    requires Sum(freq) == Sum(stemFreq)
    ensures StemFreqsOf(key, words, freq)
  {
    ResultEntriesCorrect(key, words, wordByStem, stemFreq, stemWord, freq);
    ResultStemsCorrect(key, words, wordByStem, stemFreq, stemWord, freq);
    assert |freq| == |stemWord.Keys|;
  }

  /** `get_stem_freqs(titles)` on the tokens of `titles`: the most frequent
      surface form of every stem that is not a stopword, mapped to the number
      of words with that stem. */
  method GetStemFreqs(key: string -> string, tokens: seq<string>) returns (freq: map<string, nat>)
    ensures StemFreqsOf(key, GetWords(tokens), freq)
  {
    freq := StemFreqsOfWords(key, GetWords(tokens));
  }

  /** Lines 44-56 of `get_stem_freqs`, on the cleaned words: count, pick
      the winners, re-key. */
  method StemFreqsOfWords(key: string -> string, words: seq<string>) returns (freq: map<string, nat>)
    ensures StemFreqsOf(key, words, freq)
  {
    var wordByStem, stemFreq := CountStems(key, words);
    FormTablesNonEmpty(key, words, wordByStem);
    var stemWord := StemWords(wordByStem);
    WinnersDistinct(key, wordByStem, stemWord);
    freq := FreqByWord(stemWord, stemFreq);
    ResultCorrect(key, words, wordByStem, stemFreq, stemWord, freq);
  }
}
