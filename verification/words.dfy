/** `get_words` of `title_processor.py`: every token the tokenizer produced,
    with its leading and trailing apostrophes and hyphens removed
    (Python's `w.strip("'-")`). The tokenizer itself is not modelled: its
    output is the input `tokens`. */
module Words {

  /** The characters `strip("'-")` removes. */
  predicate IsStripChar(c: char)
  {
    c == '\'' || c == '-'
  }

  /** Every character of `s` is one that is stripped. */
  predicate AllStripChars(s: string)
  {
    forall i :: 0 <= i < |s| ==> IsStripChar(s[i])
  }

  /** Neither end of `s` is a stripped character. */
  predicate NoStripEnds(s: string)
  {
    s == [] || (!IsStripChar(s[0]) && !IsStripChar(s[|s| - 1]))
  }

  /** `w` splits as `p + r + q` where `p` and `q` consist of stripped
      characters only: `r` is `w` with some stripped characters cut off
      each end. */
  ghost predicate Trims(w: string, r: string)
  {
    exists p, q :: w == p + r + q && AllStripChars(p) && AllStripChars(q)
  }

  /** `w` without its run of leading stripped characters: a suffix of `w`
      whose cut-off prefix is all stripped characters. */
  function StripLeading(w: string): (r: string)
    ensures |r| <= |w| && r == w[|w| - |r|..]
    ensures AllStripChars(w[..|w| - |r|])
    ensures r == [] || !IsStripChar(r[0])
    decreases |w|
  {
    if w != [] && IsStripChar(w[0]) then
      var r := StripLeading(w[1..]);
      assert w[1..][..|w| - 1 - |r|] == w[1..|w| - |r|];
      r
    else
      w
  }

  /** `w` without its run of trailing stripped characters: a prefix of `w`
      whose cut-off suffix is all stripped characters. */
  function StripTrailing(w: string): (r: string)
    ensures |r| <= |w| && r == w[..|r|]
    ensures AllStripChars(w[|r|..])
    ensures r == [] || !IsStripChar(r[|r| - 1])
    decreases |w|
  {
    if w != [] && IsStripChar(w[|w| - 1]) then
      var r := StripTrailing(w[..|w| - 1]);
      assert w[|r|..] == w[..|w| - 1][|r|..] + [w[|w| - 1]];
      r
    else
      w
  }

  /** `w.strip("'-")`: `w` with stripped characters cut off each end, and
      neither end of the result is one. */
  function Strip(w: string): (r: string)
    ensures Trims(w, r) && NoStripEnds(r)
  {
    var l := StripLeading(w);
    var r := StripTrailing(l);
    TrimsBy(w, w[..|w| - |l|], l, r, l[|r|..]);
    r
  }

  /** Cutting `p` off the front and `q` off the back is a trim. */
  lemma TrimsBy(w: string, p: string, l: string, r: string, q: string)
    requires w == p + l && l == r + q
    requires AllStripChars(p) && AllStripChars(q)
    ensures Trims(w, r)
  {
    assert w == p + r + q;
  }

  /** Stripping the leading run of `p + s` removes exactly `p` when `p` is all
      stripped characters and `s` does not start with one. */
  lemma {:induction false} StripLeadingOf(p: string, s: string)
    requires AllStripChars(p)
    requires s == [] || !IsStripChar(s[0])
    ensures StripLeading(p + s) == s
    decreases |p|
  {
    if p != [] {
      assert (p + s)[1..] == p[1..] + s;
      StripLeadingOf(p[1..], s);
    }
  }

  /** Stripping the trailing run of `s + q` removes exactly `q` when `q` is
      all stripped characters and `s` does not end with one. */
  lemma {:induction false} StripTrailingOf(s: string, q: string)
    requires AllStripChars(q)
    requires s == [] || !IsStripChar(s[|s| - 1])
    ensures StripTrailing(s + q) == s
    decreases |q|
  {
    if q != [] {
      assert (s + q)[..|s + q| - 1] == s + q[..|q| - 1];
      StripTrailingOf(s, q[..|q| - 1]);
    }
  }

  /** The contract of `Strip` determines its result: whenever `r` is `w`
      with stripped characters cut off each end and `r` is free of them at
      both ends, `r` is `Strip(w)`. */
  lemma StripUnique(w: string, r: string)
    requires Trims(w, r) && NoStripEnds(r)
    ensures Strip(w) == r
  {
    var p, q :| w == p + r + q && AllStripChars(p) && AllStripChars(q);
    if r == [] {
      assert w == (p + q) + [];
      StripLeadingOf(p + q, []);
    } else {
      assert w == p + (r + q);
      StripLeadingOf(p, r + q);
      StripTrailingOf(r, q);
    }
  }

  /** Cutting nothing off is a trim. */
  lemma TrimsSelf(r: string)
    ensures Trims(r, r)
  {
    var none: string := [];
    assert r == none + r + none && AllStripChars(none);
  }

  /** Re-stripping a stripped word changes nothing. */
  lemma StripIdempotent(w: string)
    ensures Strip(Strip(w)) == Strip(w)
  {
    var r := Strip(w);
    TrimsSelf(r);
    StripUnique(r, r);
  }

  /** `get_words` after tokenizing: token `i` stripped, for every `i`. */
  function GetWords(tokens: seq<string>): (words: seq<string>)
    ensures |words| == |tokens|
    ensures forall i :: 0 <= i < |words| ==> NoStripEnds(words[i]) && Strip(words[i]) == words[i]
    ensures forall i :: 0 <= i < |words| ==> Trims(tokens[i], words[i])
  {
    var words := seq(|tokens|, i requires 0 <= i < |tokens| => Strip(tokens[i]));
    forall i | 0 <= i < |words|
      ensures Strip(words[i]) == words[i]
      ensures Trims(tokens[i], words[i])
    {
      assert words[i] == Strip(tokens[i]);
      StripIdempotent(tokens[i]);
    }
    words
  }

  /** Applying `get_words`' clean-up twice is the same as once. */
  lemma GetWordsIdempotent(tokens: seq<string>)
    ensures GetWords(GetWords(tokens)) == GetWords(tokens)
  {
    var words := GetWords(tokens);
    assert forall i :: 0 <= i < |words| ==> GetWords(words)[i] == words[i];
  }
}
