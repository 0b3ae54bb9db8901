/** The welcome sentence: one draw from a freshly seeded generator picks an
    entry of a fixed table of seven, with a fallback sentence for an index
    past the table's end. */
module Sentences {
  import opened Base
  import opened Random

  const SENTENCES: seq<string> := [
    "Don't work too hard. The sun will expand and engulf this CPU anyway.",
    "Everything you do today will eventually be overwritten.",
    "Nothing matters. Build good software anyway.",
    "That is all.",
    "The loop continues.",
    "The universe has not noticed.",
    "Try not to take it too seriously."
  ]

  /** The `unwrap_or` default. */
  const FALLBACK: string := "The void is silent."

  /** The fallback is none of the table's sentences. */
  lemma FallbackNotInTable()
    ensures |SENTENCES| == 7
    ensures FALLBACK !in SENTENCES
  {
    assert |FALLBACK| == 19;
    assert SENTENCES[4][4] == 'l' && FALLBACK[4] == 'v';
    assert forall k :: 0 <= k < |SENTENCES| && k != 4 ==> |SENTENCES[k]| != 19;
  }

  /** `SENTENCES.get(index).copied().unwrap_or(FALLBACK)`: a table sentence
      exactly when the index is in range, the fallback exactly when not. */
  function Lookup(index: nat): (s: string)
    ensures s in SENTENCES <==> index < |SENTENCES|
    ensures s == FALLBACK <==> index >= |SENTENCES|
    ensures index < |SENTENCES| ==> s == SENTENCES[index]
  {
    FallbackNotInTable();
    if index < |SENTENCES| then SENTENCES[index] else FALLBACK
  }

  /** `welcome_message` once the generator's seed is known: build the
      generator, draw once in the range of the table's length, and look the
      draw up. The result is a table sentence chosen by the seed alone; the
      fallback is never returned. */
  method WelcomeMessage(seed: bv64) returns (msg: string)
    ensures msg == SENTENCES[RangeDraw(seed, |SENTENCES|)]
    ensures msg in SENTENCES && msg != FALLBACK
  {
    var rng := new Rng(seed);
    var index := rng.GenRange(|SENTENCES|);
    msg := Lookup(index);
  }
}
