/** The two dict comprehensions at the end of `get_stem_freqs`
    (`title_processor.py`, lines 52-55): the most frequent surface form of
    every stem, and the map from that form to the stem's total.

    Both walk a dict with `iteritems()`, whose order Python leaves
    unspecified. Here that order is an explicit argument: any sequence that
    lists each key once (`Enumerates`). It decides which of several equally
    frequent forms `max` returns, and which stem's total survives when two
    stems share a winning form. */
module Selection {
  import opened Counters

  /** `dct.iteritems()` in whatever order the dict yields its keys: the
      keys, each once, in an order the caller cannot rely on. */
  method Enumerate(keys: set<string>) returns (order: seq<string>)
    ensures Enumerates(order, keys)
    ensures |order| == |keys|
  {
    order := [];
    var left := keys;
    while left != {}
      invariant left <= keys
      invariant Distinct(order)
      invariant forall k :: k in order <==> k in keys && k !in left
      invariant |order| + |left| == |keys|
      decreases |left|
    {
      var k :| k in left;
      order := order + [k];
      left := left - {k};
    }
  }

  /** `w` is a form of `forms` whose count no other form exceeds. */
  predicate IsMostFrequent(forms: map<string, nat>, w: string)
  {
    w in forms && forall v :: v in forms ==> forms[v] <= forms[w]
  }

  /** `max(dct.iteritems(), key=itemgetter(1))` with the items visited in
      `order`: the position of a form of greatest count, and among those
      the first one visited, because `max` replaces its candidate only on a
      strictly greater count. */
  function MaxPosition(forms: map<string, nat>, order: seq<string>): (i: nat)
    requires order != []
    requires forall v :: v in order ==> v in forms
    ensures i < |order|
    ensures forall j :: 0 <= j < |order| ==> forms[order[j]] <= forms[order[i]]
    ensures forall j :: 0 <= j < i ==> forms[order[j]] < forms[order[i]]
  {
    var n := |order|;
    if n == 1 then 0
    else
      var best := MaxPosition(forms, order[..n - 1]);
      if forms[order[n - 1]] > forms[order[best]] then n - 1 else best
  }

  /** The keys of a non-empty dict are visited by any of its iteration
      orders, so `max` is never applied to an empty sequence of items. */
  lemma VisitsSomething(forms: map<string, nat>, order: seq<string>)
    requires forms != map[]
    requires Enumerates(order, forms.Keys)
    ensures order != []
  {
    var v :| v in forms.Keys;
    assert v in order;
  }

  /** `max(...)[0]`: the form found by `max` is a most frequent one. */
  function WinnerOf(forms: map<string, nat>, order: seq<string>): (w: string)
    requires forms != map[] && Enumerates(order, forms.Keys)
    ensures IsMostFrequent(forms, w)
  {
    VisitsSomething(forms, order);
    order[MaxPosition(forms, order)]
  }

  /** `stem_word`: every stem mapped to its first most frequent form, each
      form table visited in its own iteration order `orders[stem]`. */
  function Winners(wordByStem: map<string, map<string, nat>>, orders: map<string, seq<string>>)
    : (stemWord: map<string, string>)
    requires forall s :: s in wordByStem ==>
               wordByStem[s] != map[] && s in orders && Enumerates(orders[s], wordByStem[s].Keys)
    ensures stemWord.Keys == wordByStem.Keys
    ensures forall s :: s in stemWord ==> IsMostFrequent(wordByStem[s], stemWord[s])
  {
    map s | s in wordByStem :: WinnerOf(wordByStem[s], orders[s])
  }

  /** `{val: stem_freq[key] for (key, val) in stem_word.iteritems()}` with the
      stems visited in `stems`: every visited stem's winner gets the stem's
      total (0 for a stem the counter never saw), and when two stems share a
      winner the one visited later overwrites the other. */
  function Rekey(stemWord: map<string, string>, stemFreq: map<string, nat>, stems: seq<string>)
    : (freq: map<string, nat>)
    requires forall s :: s in stems ==> s in stemWord
    ensures forall w :: w in freq ==> exists i :: 0 <= i < |stems| && stemWord[stems[i]] == w
    ensures forall i :: 0 <= i < |stems| ==> stemWord[stems[i]] in freq
    ensures forall i :: 0 <= i < |stems| && LastWith(stemWord, stems, i) ==>
              freq[stemWord[stems[i]]] == Get(stemFreq, stems[i])
  {
    if stems == [] then map[]
    else
      var init, s := stems[..|stems| - 1], stems[|stems| - 1];
      assert stems == init + [s];
      var rest := Rekey(stemWord, stemFreq, init);
      rest[stemWord[s] := Get(stemFreq, s)]
  }

  /** No stem visited after position `i` has the same winner as the stem
      at `i`. */
  predicate LastWith(stemWord: map<string, string>, stems: seq<string>, i: nat)
    requires forall s :: s in stems ==> s in stemWord
    requires i < |stems|
  {
    forall j :: i < j < |stems| ==> stemWord[stems[j]] != stemWord[stems[i]]
  }

  /** When no two stems share a winner, nothing is overwritten: every stem's
      winner carries that stem's own total. */
  lemma RekeyKeepsTotals(stemWord: map<string, string>, stemFreq: map<string, nat>, stems: seq<string>)
    requires Injective(stemWord)
    requires forall s :: s in stems ==> s in stemWord
    requires Distinct(stems)
    ensures forall s :: s in stems ==> Rekey(stemWord, stemFreq, stems)[stemWord[s]] == Get(stemFreq, s)
  {
    forall i | 0 <= i < |stems| ensures LastWith(stemWord, stems, i) {
    }
  }

  /** When no two stems share a winner, there is one entry per visited stem
      and the entries add up to the visited totals. */
  lemma {:induction false} RekeySizes(stemWord: map<string, string>, stemFreq: map<string, nat>,
                                      stems: seq<string>)
    requires Injective(stemWord)
    requires forall s :: s in stems ==> s in stemWord
    requires Distinct(stems)
    ensures |Rekey(stemWord, stemFreq, stems)| == |stems|
    ensures Sum(Rekey(stemWord, stemFreq, stems)) == SumAlong(stemFreq, stems)
    decreases |stems|
  {
    if stems != [] {
      var init, s := stems[..|stems| - 1], stems[|stems| - 1];
      assert stems == init + [s];
      var rest := Rekey(stemWord, stemFreq, init);
      RekeySizes(stemWord, stemFreq, init);
      RekeyAvoids(stemWord, stemFreq, init, s);
      SumUpdate(rest, stemWord[s], Get(stemFreq, s));
    }
  }

  /** The winner of a stem not yet visited is not yet a key, when no two
      stems share a winner. */
  lemma RekeyAvoids(stemWord: map<string, string>, stemFreq: map<string, nat>,
                    stems: seq<string>, s: string)
    requires Injective(stemWord)
    requires forall t :: t in stems ==> t in stemWord
    requires s in stemWord && s !in stems
    ensures stemWord[s] !in Rekey(stemWord, stemFreq, stems)
  {
    forall i | 0 <= i < |stems| ensures stemWord[stems[i]] != stemWord[s] {
      assert stems[i] != s;
    }
  }
}
