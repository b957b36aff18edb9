/** Judging a submitted answer. The JSON API and the server-rendered site
    compare the set of picked letters with the letters of the suggested
    answer; the older single-choice service compares one letter with the
    stored answer string. */
module Scoring {
  import opened Wrappers
  import opened Strings
  import Consensus
  import Scraper

  /** `set(key.strip())`: the letters of the answer key, each as a
      one-character string, as the submitted letters are. */
  function KeyLetters(key: string): set<string> {
    Letters(Strip(key))
  }

  /** The characters of `s`, each as a one-character string. */
  function Letters(s: string): set<string> {
    set c | c in s :: [c]
  }

  /** The multi-choice verdict of the JSON API: the key is not blank, the
      picked letters form exactly the key's set of letters, and both the list
      of picks and the key's set of letters have the expected size. */
  predicate IsCorrect(key: string, chosen: seq<string>, expected: int) {
    && key != ""
    && Strip(key) != ""
    && Elems(chosen) == KeyLetters(key)
    && |chosen| == expected
    && |KeyLetters(key)| == expected
  }

  /** The same verdict as the server-rendered site writes it: a first branch
      that accepts, an `elif` for a key whose size differs from the expected
      count, and a fall-through, both of which reject. */
  predicate SiteVerdict(key: string, chosen: seq<string>, expected: int) {
    if key != "" && Strip(key) != "" then
      var letters := KeyLetters(key);
      if Elems(chosen) == letters && |chosen| == expected && |letters| == expected then true
      else if |letters| != expected && expected > 0 then false
      else false
    else false
  }

  /** The two servers judge every submission alike: the `elif` branch of the
      site changes nothing. */
  lemma SiteAgreesWithApi(key: string, chosen: seq<string>, expected: int)
    ensures SiteVerdict(key, chosen, expected) <==> IsCorrect(key, chosen, expected)
  {
  }

  /** What the verdict means: a non-blank key, and a list of picks that names
      every letter of the key once and nothing else, of the expected length.
      In particular a list with a repeated letter is never correct. */
  lemma IsCorrectMeaning(key: string, chosen: seq<string>, expected: int)
    ensures IsCorrect(key, chosen, expected) <==>
      && Strip(key) != ""
      && Distinct(chosen)
      && Elems(chosen) == KeyLetters(key)
      && |chosen| == expected
  {
    DistinctCount(chosen);
    if Strip(key) != "" {
      assert key != "";
    }
  }

  /** Whatever is picked, a key whose number of distinct letters is not the
      number of letters to pick can never be answered correctly. */
  lemma MismatchedKeyNeverCorrect(key: string, chosen: seq<string>, expected: int)
    requires |KeyLetters(key)| != expected
    ensures !IsCorrect(key, chosen, expected)
  {
  }

  // ---------------------------------------------------------------------
  // The single-choice service

  /** The single-choice verdict: the stored answer is a non-blank string and
      the submitted letter equals it exactly. `key` is `None` when the record
      has no answer or holds something other than a string. */
  predicate LegacyVerdict(key: Option<string>, chosen: string) {
    key.Some? && key.value != "" && Strip(key.value) != "" && chosen == key.value
  }

  /** The answer the service reports back: the stored one when it is a
      non-blank string, else the empty string. */
  function AnswerShown(key: Option<string>): (r: string)
    ensures r == "" || (key == Some(r) && Strip(r) != "")
  {
    if key.Some? && key.value != "" && Strip(key.value) != "" then key.value else ""
  }

  /** A correct single-choice submission always reports back the letter that
      was submitted. */
  lemma LegacyCorrectShowsChoice(key: Option<string>, chosen: string)
    requires LegacyVerdict(key, chosen)
    ensures AnswerShown(key) == chosen
  {
  }

  /** On a key of one non-blank letter, the single-choice verdict is the
      multi-choice verdict on a one-letter list with one letter expected. */
  lemma LegacyAgreesOnOneLetter(key: string, chosen: string)
    requires |key| == 1 && key[0] !in Whitespace
    ensures LegacyVerdict(Some(key), chosen) <==> IsCorrect(key, [chosen], 1)
  {
    OneLetterKey(key);
    OneLetterVerdict(key, chosen);
  }

  /** With a non-blank key that is its only letter, one letter is right
      exactly when it is the key. */
  lemma OneLetterVerdict(key: string, chosen: string)
    requires Strip(key) != "" && KeyLetters(key) == {key}
    ensures LegacyVerdict(Some(key), chosen) <==> chosen == key
    ensures IsCorrect(key, [chosen], 1) <==> chosen == key
    ensures LegacyVerdict(Some(key), chosen) <==> IsCorrect(key, [chosen], 1)
  {
    OnePick(chosen);
    if Elems([chosen]) == KeyLetters(key) {
      assert chosen in {key};
    }
  }

  /** A key of one non-blank letter is not blank and is its only letter. */
  lemma OneLetterKey(key: string)
    requires |key| == 1 && key[0] !in Whitespace
    ensures Strip(key) != "" && KeyLetters(key) == {key}
  {
    StripUnchanged(key);
    LettersOfOne(key);
  }

  lemma LettersOfOne(key: string)
    requires |key| == 1
    ensures Letters(key) == {key}
  {
    assert key == [key[0]];
  }

  lemma OnePick(chosen: string)
    ensures Elems([chosen]) == {chosen}
  {
  }

  // ---------------------------------------------------------------------
  // Scraped keys

  /** Each letter of `s` as its own one-character string, the form in which
      the pages submit picked letters. */
  function Singletons(s: string): (r: seq<string>)
    ensures |r| == |s|
  {
    seq(|s|, i requires 0 <= i < |s| => [s[i]])
  }

  /** A string that neither starts nor ends with white space strips to
      itself. */
  lemma StripUnchanged(s: string)
    requires s != [] && s[0] !in Whitespace && s[|s| - 1] !in Whitespace
    ensures Strip(s) == s
  {
  }

  /** The letters of a sorted key without repeats, submitted one by one,
      are judged correct when as many letters are expected as the key has. */
  lemma SortedKeyAccepted(s: string)
    requires s != [] && s[0] !in Whitespace && s[|s| - 1] !in Whitespace
    requires StrictlyIncreasing(s)
    ensures |KeyLetters(s)| == |s|
    ensures IsCorrect(s, Singletons(s), |s|)
  {
    StripUnchanged(s);
    SingletonsAreLetters(s);
    SingletonsDistinct(s);
    DistinctCount(Singletons(s));
  }

  lemma SingletonsAreLetters(s: string)
    ensures Elems(Singletons(s)) == Letters(s)
  {
    var picks := Singletons(s);
    forall x | x in Elems(picks) ensures x in Letters(s) {
      var i :| 0 <= i < |picks| && picks[i] == x;
      assert s[i] in s;
    }
    forall x | x in Letters(s) ensures x in Elems(picks) {
      var c :| c in s && x == [c];
      var i :| 0 <= i < |s| && s[i] == c;
      assert picks[i] == x;
    }
  }

  lemma SingletonsDistinct(s: string)
    requires StrictlyIncreasing(s)
    ensures Distinct(Singletons(s))
  {
    var picks := Singletons(s);
    forall i, j | 0 <= i < j < |picks| ensures picks[i] != picks[j] {
      assert picks[i][0] == s[i] && picks[j][0] == s[j];
    }
  }

  /** The scraped key and the scraped count agree with the judge: submitting
      the suggested letters one by one is judged correct, and since the key
      has exactly as many distinct letters as the count, a question with a
      suggestion can always be answered correctly. */
  lemma SuggestionIsAccepted(bars: seq<Consensus.Bar>, optionCount: nat)
    requires Consensus.Suggestion(bars) != ""
    ensures var s := Consensus.Suggestion(bars);
      && |KeyLetters(s)| == Scraper.AnswerCount(s, optionCount)
      && IsCorrect(s, Singletons(s), Scraper.AnswerCount(s, optionCount))
  {
    var s := Consensus.Suggestion(bars);
    Consensus.SuggestionIsSortedLetters(bars);
    assert forall c :: IsUpper(c) ==> c !in Whitespace;
    assert s[0] in s && s[|s| - 1] in s;
    SortedKeyAccepted(s);
  }

  /** A blank key is never matched, whatever is picked: questions without a
      suggestion can only be answered wrongly. */
  lemma BlankKeyNeverCorrect(key: string, chosen: seq<string>, expected: int)
    requires Strip(key) == ""
    ensures !IsCorrect(key, chosen, expected)
    ensures forall c :: !LegacyVerdict(Some(key), c)
  {
  }
}
