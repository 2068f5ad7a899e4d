/**
  The integer part of the per-guess scorer (`calculate_scores_`): for one guess,
  filter the dictionary against every colour pattern on a fresh copy of the
  letter lists, keep the non-empty subsets, and sum each subset's frequencies.
  The frequency sums are everything the entropy formula reads besides
  `freq_total`, so they stand in for the floating-point score.
 */
module Scoring {
  import opened Patterns
  import opened Constraints
  import opened Filter

  /** `sum(value for value in d.values())`. */
  function FreqSum(d: Dict): int {
    if d == [] then 0 else FreqSum(d[..|d| - 1]) + d[|d| - 1].freq
  }

  predicate NonNegativeFreqs(d: Dict) {
    forall e :: e in d ==> e.freq >= 0
  }

  /** Every pattern has a colour for each of the five positions. */
  predicate CombosIndexable(combos: seq<Combo>) {
    forall k :: 0 <= k < |combos| ==> |combos[k]| >= WordLength
  }

  /** `remaining_words_by_combo`: the non-empty filter results, in pattern order. */
  function NonEmptySubsets(guess: string, d: Dict, init: seq<Letters>, combos: seq<Combo>): seq<Dict>
    requires |guess| >= WordLength && |init| >= WordLength && CombosIndexable(combos)
  {
    if combos == [] then []
    else
      var s := GuessFilterSpec(guess, combos[|combos| - 1], d, init);
      NonEmptySubsets(guess, d, init, combos[..|combos| - 1]) + (if |s| > 0 then [s] else [])
  }

  /** The frequency mass of each subset (`combo_freq`), in order. */
  function Profile(subsets: seq<Dict>): (p: seq<int>)
    ensures |p| == |subsets|
  {
    seq(|subsets|, i requires 0 <= i < |subsets| => FreqSum(subsets[i]))
  }

  /** The score of one guess: the masses of its non-empty subsets over all 243 patterns. */
  function GuessProfile(guess: string, d: Dict, init: seq<Letters>): seq<int>
    requires |guess| >= WordLength && |init| >= WordLength
  {
    Profile(NonEmptySubsets(guess, d, init, AllCombos()))
  }

  /** The loop over the patterns, each filtered against a deep copy of `remaining`.
      The method has no `modifies` clause: the caller's lists are never changed. */
  method SubsetsByCombo(guess: string, remainingWords: Dict, remaining: array<Letters>, combos: seq<Combo>)
    returns (byCombo: seq<Dict>)
    requires |guess| >= WordLength && remaining.Length >= WordLength && CombosIndexable(combos)
    ensures byCombo == NonEmptySubsets(guess, remainingWords, remaining[..], combos)
  {
    byCombo := [];
    for i := 0 to |combos|
      invariant byCombo == NonEmptySubsets(guess, remainingWords, remaining[..], combos[..i])
    {
      var copy := new Letters[remaining.Length](k requires 0 <= k < remaining.Length reads remaining => remaining[k]);
      assert copy[..] == remaining[..];
      var filtered := GuessFilter(guess, combos[i], remainingWords, copy);
      if |filtered| > 0 {
        byCombo := byCombo + [filtered];
      }
      assert combos[..i + 1][..i] == combos[..i];
    }
    assert combos[..|combos|] == combos;
  }

  /** The body of the loop over `guesses` for one guess, without the log line and
      with the frequency masses in place of the entropy sum. */
  method ScoreGuess(guess: string, remainingWords: Dict, remaining: array<Letters>)
    returns (profile: seq<int>)
    requires |guess| >= WordLength && remaining.Length >= WordLength
    ensures profile == GuessProfile(guess, remainingWords, remaining[..])
  {
    var combos := ColorCombos();
    CombosWellFormed();
    var byCombo := SubsetsByCombo(guess, remainingWords, remaining, combos);
    profile := [];
    for i := 0 to |byCombo|
      invariant profile == Profile(byCombo[..i])
    {
      var comboFreq := FreqSum(byCombo[i]);
      profile := profile + [comboFreq];
    }
    assert byCombo[..|byCombo|] == byCombo;
  }

  /** Words long enough to be indexed at every position as guesses. */
  predicate Guessable(guesses: seq<string>) {
    forall g :: g in guesses ==> |g| >= WordLength
  }

  /** `calculate_scores_`: one worker's share, as the entries it writes into the
      shared `information` dictionary. */
  method CalculateScoresWorker(guesses: seq<string>, remainingWords: Dict, remaining: array<Letters>)
    returns (information: map<string, seq<int>>)
    requires Guessable(guesses) && remaining.Length >= WordLength
    ensures Scored(information, guesses, remainingWords, remaining[..])
  {
    information := map[];
    for n := 0 to |guesses|
      invariant Scored(information, guesses[..n], remainingWords, remaining[..])
    {
      var profile := ScoreGuess(guesses[n], remainingWords, remaining);
      information := information[guesses[n] := profile];
      assert forall g :: g in guesses[..n + 1] <==> g in guesses[..n] || g == guesses[n];
    }
    assert guesses[..|guesses|] == guesses;
  }

  /** The merged dictionary holds exactly the words of ws, each with its profile. */
  predicate Scored(information: map<string, seq<int>>, ws: seq<string>, d: Dict, init: seq<Letters>)
    requires |init| >= WordLength
  {
    information.Keys == (set g | g in ws) && ProfilesOf(information, d, init)
  }

  /** Every word the dictionary holds is a guess, mapped to its profile. */
  predicate ProfilesOf(information: map<string, seq<int>>, d: Dict, init: seq<Letters>)
    requires |init| >= WordLength
  {
    forall g :: g in information ==> |g| >= WordLength && information[g] == GuessProfile(g, d, init)
  }

  // ---------------------------------------------------------------------------
  // Properties of the subsets and their masses
  // ---------------------------------------------------------------------------

  /** The subsets are the non-empty filter results, at most one per pattern: each
      subset is some pattern's non-empty result, and each pattern's non-empty result
      is a subset. */
  lemma {:induction false} NonEmptySubsetsShape(guess: string, d: Dict, init: seq<Letters>, combos: seq<Combo>)
    requires |guess| >= WordLength && |init| >= WordLength && CombosIndexable(combos)
    ensures |NonEmptySubsets(guess, d, init, combos)| <= |combos|
    ensures forall s :: s in NonEmptySubsets(guess, d, init, combos) ==>
      s != [] && exists k :: 0 <= k < |combos| && s == GuessFilterSpec(guess, combos[k], d, init)
    ensures forall k :: 0 <= k < |combos| && GuessFilterSpec(guess, combos[k], d, init) != [] ==>
      GuessFilterSpec(guess, combos[k], d, init) in NonEmptySubsets(guess, d, init, combos)
  {
    if combos != [] {
      var front := combos[..|combos| - 1];
      NonEmptySubsetsShape(guess, d, init, front);
      var last := GuessFilterSpec(guess, combos[|combos| - 1], d, init);
      var before := NonEmptySubsets(guess, d, init, front);
      var subs := NonEmptySubsets(guess, d, init, combos);
      assert subs == before + (if |last| > 0 then [last] else []);
      forall t | t in subs
        ensures t != [] && exists k :: 0 <= k < |combos| && t == GuessFilterSpec(guess, combos[k], d, init)
      {
        if t in before {
          var k :| 0 <= k < |front| && t == GuessFilterSpec(guess, front[k], d, init);
          assert combos[k] == front[k];
        } else {
          assert t == GuessFilterSpec(guess, combos[|combos| - 1], d, init);
        }
      }
      forall k | 0 <= k < |combos| && GuessFilterSpec(guess, combos[k], d, init) != []
        ensures GuessFilterSpec(guess, combos[k], d, init) in subs
      {
        if k < |front| {
          assert front[k] == combos[k];
        }
      }
    }
  }

  lemma {:induction false} FreqSumNonNegative(d: Dict)
    requires NonNegativeFreqs(d)
    ensures FreqSum(d) >= 0
  {
    if d != [] {
      assert NonNegativeFreqs(d[..|d| - 1]) by {
        forall e | e in d[..|d| - 1] ensures e in d {
          var i :| 0 <= i < |d| - 1 && d[..|d| - 1][i] == e;
          assert d[i] == e;
        }
      }
      FreqSumNonNegative(d[..|d| - 1]);
    }
  }

  /** Adding one entry adds its frequency. */
  lemma FreqSumAppend(d: Dict, e: Entry)
    ensures FreqSum(d + [e]) == FreqSum(d) + e.freq
  {
    assert (d + [e])[..|d|] == d;
  }

  /** A filter result holds between none and all of the dictionary's mass. */
  lemma {:induction false} FilterEntriesMass(d: Dict, c: Compiled)
    requires |c.classes| >= WordLength && NonNegativeFreqs(d)
    ensures 0 <= FreqSum(FilterEntries(d, c)) <= FreqSum(d)
  {
    if d != [] {
      var front := d[..|d| - 1];
      var last := d[|d| - 1];
      assert NonNegativeFreqs(front) by {
        forall e | e in front ensures e in d {
          var i :| 0 <= i < |front| && front[i] == e;
          assert d[i] == e;
        }
      }
      FilterEntriesMass(front, c);
      assert last in d;
      if Matches(c, last.word) {
        FreqSumAppend(FilterEntries(front, c), last);
      } else {
        assert FilterEntries(front, c) + [] == FilterEntries(front, c);
      }
    }
  }

  /** With non-negative frequencies each subset's mass lies between 0 and `freq_total`. */
  lemma SubsetMassBounds(guess: string, d: Dict, init: seq<Letters>, combos: seq<Combo>)
    requires |guess| >= WordLength && |init| >= WordLength && CombosIndexable(combos)
    requires NonNegativeFreqs(d)
    ensures forall s :: s in NonEmptySubsets(guess, d, init, combos) ==> 0 <= FreqSum(s) <= FreqSum(d)
  {
    NonEmptySubsetsShape(guess, d, init, combos);
    FreqSumNonNegative(d);
    forall s | s in NonEmptySubsets(guess, d, init, combos) ensures 0 <= FreqSum(s) <= FreqSum(d) {
      var k :| 0 <= k < |combos| && s == GuessFilterSpec(guess, combos[k], d, init);
      match BuildRegexSpec(guess, combos[k], init)
      case Failure(_) =>
      case Success(c) => FilterEntriesMass(d, c);
    }
  }

  // ---------------------------------------------------------------------------
  // Every word lands in exactly one pattern's subset
  // ---------------------------------------------------------------------------

  /** The one pattern whose filter keeps w: green where w has the guessed letter,
      yellow where the letter occurs elsewhere in w, grey otherwise. */
  function Feedback(guess: string, w: string): (p: Combo)
    requires |guess| >= WordLength && |w| >= WordLength
    ensures IsCombo(p)
  {
    seq(WordLength, i requires 0 <= i < WordLength =>
      if w[i] == guess[i] then Green else if guess[i] in w then Yellow else Grey)
  }

  /** Each position's list holds the letter of w at that position. */
  predicate LettersAvailable(init: seq<Letters>, w: string)
    requires |init| >= WordLength && |w| >= WordLength
  {
    forall i :: 0 <= i < WordLength ==> w[i] in init[i]
  }

  /** Under its own pattern, no letter of the guess is both grey and non-grey. */
  lemma FeedbackNoClash(guess: string, w: string)
    requires |guess| >= WordLength && |w| == WordLength
    ensures forall x :: x in GreysIn(guess, Feedback(guess, w), 0, WordLength) ==> x !in w
    ensures forall x :: x in NonGreysIn(guess, Feedback(guess, w), WordLength) ==> x in w
    ensures GreysIn(guess, Feedback(guess, w), 0, WordLength) * NonGreysIn(guess, Feedback(guess, w), WordLength) == {}
  {
    var p := Feedback(guess, w);
    var greys := GreysIn(guess, p, 0, WordLength);
    var nongreys := NonGreysIn(guess, p, WordLength);
    forall x | x in nongreys ensures x in w {
      var i :| 0 <= i < WordLength && !IsGrey(p[i]) && guess[i] == x;
      if p[i] == Green {
        assert w[i] == x;
      }
    }
    forall x | x in greys ensures x !in w {
      var i :| 0 <= i < WordLength && IsGrey(p[i]) && guess[i] == x;
    }
    assert forall x :: x in greys * nongreys ==> x in w && x !in w;
  }

  /** Under its own pattern each letter of w stays allowed at its position. */
  lemma FeedbackAllowed(guess: string, init: seq<Letters>, w: string)
    requires |guess| >= WordLength && |init| >= WordLength && |w| == WordLength
    requires LettersAvailable(init, w)
    ensures forall i :: 0 <= i < WordLength ==> w[i] in AllowedAt(guess, Feedback(guess, w), init, i)
  {
    var p := Feedback(guess, w);
    FeedbackNoClash(guess, w);
    forall i | 0 <= i < WordLength ensures w[i] in AllowedAt(guess, p, init, i) {
      if !IsGreen(p[i]) {
        assert w[i] in w;
        assert w[i] !in GreysIn(guess, p, 0, WordLength) + OwnDrop(guess, p, i);
      }
    }
  }

  /** The filter for the pattern `Feedback` gives admits that word. */
  lemma FeedbackAdmitted(guess: string, init: seq<Letters>, w: string)
    requires |guess| >= WordLength && |init| >= WordLength && |w| == WordLength && ListsNoDup(init)
    requires LettersAvailable(init, guess) && LettersAvailable(init, w)
    ensures Admits(guess, Feedback(guess, w), init, w)
  {
    var p := Feedback(guess, w);
    FeedbackNoClash(guess, w);
    FeedbackAllowed(guess, init, w);
    BuildRegexSucceedsIff(guess, p, init);
    BuildRegexMatchesDerived(guess, p, init);
    var c := BuildRegexSpec(guess, p, init).value;
    assert forall i :: 0 <= i < WordLength ==> c.classes[i] == AllowedAt(guess, p, init, i);
    SearchFiveLetters(c.classes, w);
    YellowsInIsYellowMarks(guess, p, WordLength);
    forall y | y in c.yellowLetters ensures y in w {
      var i :| 0 <= i < WordLength && IsYellow(p[i]) && guess[i] == y;
    }
  }

  /** A pattern whose filter admits a five-letter word is the pattern that word shows. */
  lemma AdmittedIsFeedback(guess: string, combo: Combo, init: seq<Letters>, w: string)
    requires |guess| >= WordLength && |init| >= WordLength && |w| == WordLength && ListsNoDup(init)
    requires IsCombo(combo) && Admits(guess, combo, init, w)
    ensures combo == Feedback(guess, w)
  {
    AdmitsSound(guess, combo, init, w);
    var p := Feedback(guess, w);
    forall i | 0 <= i < WordLength ensures combo[i] == p[i] {
      assert IsColor(combo[i]);
    }
  }

  /** The frequency f counted once for each of the patterns whose filter admits w. */
  function MassOver(guess: string, init: seq<Letters>, combos: seq<Combo>, w: string, f: int): int
    requires |guess| >= WordLength && |init| >= WordLength && CombosIndexable(combos)
  {
    if combos == [] then 0
    else
      MassOver(guess, init, combos[..|combos| - 1], w, f)
      + (if Admits(guess, combos[|combos| - 1], init, w) then f else 0)
  }

  /** Among the first n patterns of `COLOR_COMBOS`, only the word's own pattern admits it. */
  lemma {:induction false} MassOverPrefix(guess: string, init: seq<Letters>, w: string, f: int, n: nat)
    requires |guess| >= WordLength && |init| >= WordLength && |w| == WordLength && ListsNoDup(init)
    requires LettersAvailable(init, guess) && LettersAvailable(init, w)
    requires n <= NumCombos
    ensures CombosIndexable(AllCombos()[..n])
    ensures MassOver(guess, init, AllCombos()[..n], w, f) == if Value(Feedback(guess, w)) < n then f else 0
  {
    CombosWellFormed();
    if n > 0 {
      MassOverPrefix(guess, init, w, f, n - 1);
      MassOverStep(guess, init, w, f, n - 1);
    }
  }

  /** Pattern n of the list adds w's frequency exactly when it is w's feedback. */
  lemma MassOverStep(guess: string, init: seq<Letters>, w: string, f: int, n: nat)
    requires |guess| >= WordLength && |init| >= WordLength && |w| == WordLength && ListsNoDup(init)
    requires LettersAvailable(init, guess) && LettersAvailable(init, w)
    requires n < NumCombos
    ensures CombosIndexable(AllCombos()[..n]) && CombosIndexable(AllCombos()[..n + 1])
    ensures MassOver(guess, init, AllCombos()[..n + 1], w, f)
         == MassOver(guess, init, AllCombos()[..n], w, f) + (if Value(Feedback(guess, w)) == n then f else 0)
  {
    CombosWellFormed();
    assert AllCombos()[..n + 1][..n] == AllCombos()[..n];
    assert AllCombos()[..n + 1][n] == AllCombos()[n];
    AdmitsAt(guess, init, w, n);
  }

  /** Of the listed patterns, only the one at the index of w's feedback admits w. */
  lemma AdmitsAt(guess: string, init: seq<Letters>, w: string, n: nat)
    requires |guess| >= WordLength && |init| >= WordLength && |w| == WordLength && ListsNoDup(init)
    requires LettersAvailable(init, guess) && LettersAvailable(init, w)
    requires n < NumCombos
    ensures |AllCombos()[n]| == WordLength
    ensures Admits(guess, AllCombos()[n], init, w) <==> Value(Feedback(guess, w)) == n
  {
    CombosWellFormed();
    var v := Value(Feedback(guess, w));
    CombosComplete(Feedback(guess, w));
    if n == v {
      FeedbackAdmitted(guess, init, w);
    } else if Admits(guess, AllCombos()[n], init, w) {
      AdmittedIsFeedback(guess, AllCombos()[n], init, w);
      CombosDistinct(if v < n then v else n, if v < n then n else v);
      assert false;
    }
  }

  /** The total mass of the filter results over a list of patterns. */
  function TotalMass(guess: string, d: Dict, init: seq<Letters>, combos: seq<Combo>): int
    requires |guess| >= WordLength && |init| >= WordLength && CombosIndexable(combos)
  {
    if combos == [] then 0
    else
      TotalMass(guess, d, init, combos[..|combos| - 1]) + FreqSum(GuessFilterSpec(guess, combos[|combos| - 1], d, init))
  }

  /** Appending an entry to the dictionary adds its frequency once per admitting pattern. */
  lemma {:induction false} TotalMassAppend(guess: string, d: Dict, e: Entry, init: seq<Letters>, combos: seq<Combo>)
    requires |guess| >= WordLength && |init| >= WordLength && CombosIndexable(combos)
    ensures TotalMass(guess, d + [e], init, combos)
         == TotalMass(guess, d, init, combos) + MassOver(guess, init, combos, e.word, e.freq)
  {
    if combos != [] {
      var combo := combos[|combos| - 1];
      TotalMassAppend(guess, d, e, init, combos[..|combos| - 1]);
      match BuildRegexSpec(guess, combo, init)
      case Failure(_) =>
      case Success(c) =>
        assert (d + [e])[..|d|] == d;
        assert FilterEntries(d + [e], c) == FilterEntries(d, c) + (if Matches(c, e.word) then [e] else []);
        if Matches(c, e.word) {
          FreqSumAppend(FilterEntries(d, c), e);
        } else {
          assert FilterEntries(d, c) + [] == FilterEntries(d, c);
        }
    }
  }

  /** The empty dictionary has no mass under any pattern. */
  lemma {:induction false} TotalMassEmpty(guess: string, init: seq<Letters>, combos: seq<Combo>)
    requires |guess| >= WordLength && |init| >= WordLength && CombosIndexable(combos)
    ensures TotalMass(guess, [], init, combos) == 0
  {
    if combos != [] {
      TotalMassEmpty(guess, init, combos[..|combos| - 1]);
    }
  }

  /** Over all 243 patterns, a word's frequency is counted exactly once. */
  lemma MassOverAll(guess: string, init: seq<Letters>, w: string, f: int)
    requires |guess| >= WordLength && |init| >= WordLength && |w| == WordLength && ListsNoDup(init)
    requires LettersAvailable(init, guess) && LettersAvailable(init, w)
    ensures CombosIndexable(AllCombos())
    ensures MassOver(guess, init, AllCombos(), w, f) == f
  {
    MassOverPrefix(guess, init, w, f, NumCombos);
    assert AllCombos()[..NumCombos] == AllCombos();
    CombosComplete(Feedback(guess, w));
  }

  /** When the patterns count every word's frequency once, their total mass is the
      dictionary's. */
  lemma {:induction false} TotalMassIsFreqTotal(guess: string, d: Dict, init: seq<Letters>, combos: seq<Combo>)
    requires |guess| >= WordLength && |init| >= WordLength && CombosIndexable(combos)
    requires forall e :: e in d ==> MassOver(guess, init, combos, e.word, e.freq) == e.freq
    ensures TotalMass(guess, d, init, combos) == FreqSum(d)
  {
    if d == [] {
      TotalMassEmpty(guess, init, combos);
    } else {
      var front := d[..|d| - 1];
      var last := d[|d| - 1];
      assert forall e :: e in front ==> e in d;
      TotalMassIsFreqTotal(guess, front, init, combos);
      assert front + [last] == d;
      TotalMassAppend(guess, front, last, init, combos);
      assert last in d;
    }
  }

  /** Dropping the empty subsets drops no mass. */
  lemma {:induction false} ProfileMass(guess: string, d: Dict, init: seq<Letters>, combos: seq<Combo>)
    requires |guess| >= WordLength && |init| >= WordLength && CombosIndexable(combos)
    ensures Sum(Profile(NonEmptySubsets(guess, d, init, combos))) == TotalMass(guess, d, init, combos)
  {
    if combos != [] {
      var front := combos[..|combos| - 1];
      ProfileMass(guess, d, init, front);
      var s := GuessFilterSpec(guess, combos[|combos| - 1], d, init);
      var before := NonEmptySubsets(guess, d, init, front);
      if |s| > 0 {
        assert Profile(before + [s]) == Profile(before) + [FreqSum(s)];
        SumAppend(Profile(before), FreqSum(s));
      } else {
        assert before + [] == before;
      }
    }
  }

  function Sum(p: seq<int>): int {
    if p == [] then 0 else Sum(p[..|p| - 1]) + p[|p| - 1]
  }

  lemma SumAppend(p: seq<int>, x: int)
    ensures Sum(p + [x]) == Sum(p) + x
  {
    assert (p + [x])[..|p|] == p;
  }

  /** The masses a guess's profile lists add up to `freq_total`: every five-letter
      word over the available letters falls into exactly one pattern's subset, so
      the proportions the entropy formula weighs sum to one. */
  lemma GuessProfileMass(guess: string, d: Dict, init: seq<Letters>)
    requires |guess| >= WordLength && |init| >= WordLength && ListsNoDup(init)
    requires LettersAvailable(init, guess)
    requires FiveLetterWords(d) && forall e :: e in d ==> LettersAvailable(init, e.word)
    ensures Sum(GuessProfile(guess, d, init)) == FreqSum(d)
  {
    CombosWellFormed();
    forall e | e in d ensures MassOver(guess, init, AllCombos(), e.word, e.freq) == e.freq {
      MassOverAll(guess, init, e.word, e.freq);
    }
    TotalMassIsFreqTotal(guess, d, init, AllCombos());
    ProfileMass(guess, d, init, AllCombos());
  }
}
