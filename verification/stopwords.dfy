/** The fixed filter list of `title_processor.py`: upper-cased stems and
    punctuation marks whose words are never counted. */
module Stopwords {

  /** The list exactly as the program spells it, in its order (104 entries,
      the empty string among them). */
  const STOPWORDS: seq<string> := [
    "A", "ALL", "AM", "AN", "AND", "ARE", "AS", "AT", "BE", "BEEN",
    "BOTH", "BUT", "BY", "CAN", "COULD", "CUZ", "DID", "DO", "DOES", "DOWN",
    "EACH", "FOR", "FROM", "HAD", "HAS", "HAVE", "HE", "HER", "HERE", "HIS",
    "I", "IF", "IN", "IS", "IT", "ITS", "LIKE", "MAY", "ME", "MIGHT",
    "MUST", "MY", "NO", "NOR", "NOT", "OF", "ON", "ONE", "OR", "OUR",
    "OUT", "ROUND", "SHALL", "SHE", "SHOULD", "SINCE", "SO", "SOME", "SUCH", "THAN",
    "THAT", "THE", "THEIR", "THEM", "THESE", "THEY", "THIS", "THOSE", "THROUGH", "TILL",
    "TO", "TOO", "UP", "US", "WAS", "WE", "WERE", "WHAT", "WHEN", "WHO",
    "WHOM", "WHOSE", "WHY", "WILL", "WITH", "WOULD", "YEAH", "YOU", "YOUR", "?",
    "!", ".", ",", "-", "\"", "'", ":", "", "(", ")",
    "&", "``", "[", "]"
  ]

  /** `stem in STOPWORDS` for the upper-cased stem of a word, looked up one
      entry at a time as Python's `in` does on a list. */
  predicate IsStopword(stem: string)
  {
    ListedFrom(stem, STOPWORDS, 0)
  }

  /** `stem` is one of the entries of `list` from position `i` on. */
  predicate ListedFrom(stem: string, list: seq<string>, i: nat)
    decreases |list| - i
  {
    i < |list| && (list[i] == stem || ListedFrom(stem, list, i + 1))
  }

  /** The lookup from position `i` finds `stem` exactly when it occurs in
      the rest of the list. */
  lemma {:induction false} ListedFromIn(stem: string, list: seq<string>, i: nat)
    requires i <= |list|
    ensures ListedFrom(stem, list, i) <==> stem in list[i..]
    decreases |list| - i
  {
    if i < |list| {
      ListedFromIn(stem, list, i + 1);
      assert list[i..] == [list[i]] + list[i + 1..];
    }
  }

  /** The lookup agrees with list membership: a stem is a stopword exactly
      when it is one of the entries of `STOPWORDS`. */
  lemma IsStopwordIn(stem: string)
    ensures IsStopword(stem) <==> stem in STOPWORDS
  {
    ListedFromIn(stem, STOPWORDS, 0);
    assert STOPWORDS[0..] == STOPWORDS;
  }
}
