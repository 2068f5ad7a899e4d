/**
  The word filter (`guess_filter`): keep the dictionary entries that the
  compiled character classes accept and that contain every yellow letter.
 */
module Filter {
  import opened Wrappers
  import opened Patterns
  import opened Constraints

  /** One dictionary item: a word and its frequency. */
  datatype Entry = Entry(word: string, freq: int)

  /** A dictionary, as its items in insertion (and iteration) order. */
  type Dict = seq<Entry>

  /** `list(d)`: the keys in iteration order. */
  function Words(d: Dict): (ws: seq<string>)
    ensures |ws| == |d|
  {
    seq(|d|, i requires 0 <= i < |d| => d[i].word)
  }

  /** A dictionary's keys are pairwise distinct. */
  predicate DistinctWords(d: Dict) {
    forall i, j :: 0 <= i < j < |d| ==> d[i].word != d[j].word
  }

  /** Every key is a five-letter word, as in the word list the solver loads. */
  predicate FiveLetterWords(d: Dict) {
    forall e :: e in d ==> |e.word| == WordLength
  }

  /** The dictionary as a map from word to frequency. */
  function AsMap(d: Dict): (m: map<string, int>)
    ensures forall w :: w in m <==> exists e :: e in d && e.word == w
  {
    if d == [] then map[]
    else
      var last := d[|d| - 1];
      var m := AsMap(d[..|d| - 1])[last.word := last.freq];
      assert forall e :: e in d <==> e in d[..|d| - 1] || e == last;
      m
  }

  lemma {:induction false} AsMapValue(d: Dict, e: Entry)
    requires DistinctWords(d) && e in d
    ensures e.word in AsMap(d) && AsMap(d)[e.word] == e.freq
  {
    var last := d[|d| - 1];
    if e != last {
      var i :| 0 <= i < |d| && d[i] == e;
      if i == |d| - 1 {
        assert false;
      }
      assert d[..|d| - 1][i] == e;
      AsMapValue(d[..|d| - 1], e);
    }
  }

  // ---------------------------------------------------------------------------
  // The compiled expression and `rgx.search`
  // ---------------------------------------------------------------------------

  /** The five letters of word starting at off lie in the five classes. */
  predicate FitsAt(classes: seq<Letters>, word: string, off: nat)
    requires |classes| >= WordLength && off + WordLength <= |word|
  {
    forall i :: 0 <= i < WordLength ==> word[off + i] in classes[i]
  }

  /** `rgx.search(word)`, trying the windows that start at off, off + 1, and so on. */
  predicate SearchFrom(classes: seq<Letters>, word: string, off: nat)
    requires |classes| >= WordLength
    decreases |word| - off
  {
    off + WordLength <= |word| && (FitsAt(classes, word, off) || SearchFrom(classes, word, off + 1))
  }

  /** The search succeeds exactly when some window at or after off fits. */
  lemma {:induction false} SearchFromIff(classes: seq<Letters>, word: string, off: nat)
    requires |classes| >= WordLength
    ensures SearchFrom(classes, word, off) <==>
      exists k :: off <= k && k + WordLength <= |word| && FitsAt(classes, word, k)
    decreases |word| - off
  {
    if off + WordLength <= |word| {
      SearchFromIff(classes, word, off + 1);
      if FitsAt(classes, word, off) {
        assert off <= off && off + WordLength <= |word| && FitsAt(classes, word, off);
      }
    }
  }

  /** On a five-letter word the search only has the one window: letter i must lie in class i. */
  lemma SearchFiveLetters(classes: seq<Letters>, word: string)
    requires |classes| >= WordLength && |word| == WordLength
    ensures SearchFrom(classes, word, 0) <==> forall i :: 0 <= i < WordLength ==> word[i] in classes[i]
  {
    SearchFromIff(classes, word, 0);
    assert forall i :: 0 <= i < WordLength ==> word[0 + i] == word[i];
  }

  /** The test the loop body applies to one word: the expression matches and, when
      there are yellow letters, the word contains each of them. */
  predicate Matches(c: Compiled, word: string)
    requires |c.classes| >= WordLength
  {
    SearchFrom(c.classes, word, 0) && forall y :: y in c.yellowLetters ==> y in word
  }

  /** The entries of d that c accepts, in dictionary order. */
  function FilterEntries(d: Dict, c: Compiled): Dict
    requires |c.classes| >= WordLength
  {
    if d == [] then []
    else
      var last := d[|d| - 1];
      FilterEntries(d[..|d| - 1], c) + (if Matches(c, last.word) then [last] else [])
  }

  /** What `guess_filter` returns, given the caller's dictionary and lists. */
  function GuessFilterSpec(guess: string, combo: Combo, d: Dict, init: seq<Letters>): Dict
    requires Indexable(guess, combo, init)
  {
    match BuildRegexSpec(guess, combo, init)
    case Failure(_) => []
    case Success(c) => FilterEntries(d, c)
  }

  /** `guess_filter`: builds the expression (editing `remaining` as `build_regex`
      does), then collects the accepted entries one word at a time. */
  method GuessFilter(guess: string, combo: Combo, remainingWords: Dict, remaining: array<Letters>)
    returns (subset: Dict)
    requires Indexable(guess, combo, remaining[..])
    modifies remaining
    ensures subset == GuessFilterSpec(guess, combo, remainingWords, old(remaining[..]))
    ensures remaining[..] == LettersAfter(guess, combo, old(remaining[..]))
  {
    subset := [];
    var built := BuildRegex(guess, combo, remaining);
    if built.Failure? {
      return;
    }
    var c := built.value;
    for n := 0 to |remainingWords|
      invariant subset == FilterEntries(remainingWords[..n], c)
    {
      var e := remainingWords[n];
      if SearchFrom(c.classes, e.word, 0) {
        if |c.yellowLetters| > 0 {
          var allYellowLettersFound := true;
          for m := 0 to |c.yellowLetters|
            invariant allYellowLettersFound <==> forall k :: 0 <= k < m ==> c.yellowLetters[k] in e.word
          {
            allYellowLettersFound := allYellowLettersFound && c.yellowLetters[m] in e.word;
          }
          if allYellowLettersFound {
            subset := subset + [e];
          }
        } else {
          subset := subset + [e];
        }
      }
      assert remainingWords[..n + 1][..n] == remainingWords[..n];
    }
    assert remainingWords[..|remainingWords|] == remainingWords;
  }

  // ---------------------------------------------------------------------------
  // What the filter keeps
  // ---------------------------------------------------------------------------

  /** An entry is kept exactly when it is in the dictionary and c accepts its word. */
  lemma {:induction false} FilterEntriesMembers(d: Dict, c: Compiled)
    requires |c.classes| >= WordLength
    ensures |FilterEntries(d, c)| <= |d|
    ensures forall e :: e in FilterEntries(d, c) <==> e in d && Matches(c, e.word)
  {
    if d != [] {
      FilterEntriesMembers(d[..|d| - 1], c);
      assert forall e :: e in d <==> e in d[..|d| - 1] || e == d[|d| - 1];
    }
  }

  /** Filtering a dictionary gives a dictionary: no key appears twice. */
  lemma {:induction false} FilterEntriesDistinct(d: Dict, c: Compiled)
    requires |c.classes| >= WordLength && DistinctWords(d)
    ensures DistinctWords(FilterEntries(d, c))
  {
    if d != [] {
      var front := d[..|d| - 1];
      var last := d[|d| - 1];
      assert DistinctWords(front);
      FilterEntriesDistinct(front, c);
      FilterEntriesMembers(front, c);
      var kept := FilterEntries(front, c);
      forall e | e in kept ensures e.word != last.word {
        var i :| 0 <= i < |front| && front[i] == e;
        assert d[i] == e;
      }
      if Matches(c, last.word) {
        var r := kept + [last];
        forall i, j | 0 <= i < j < |r| ensures r[i].word != r[j].word {
          if j == |r| - 1 {
            assert r[i] in kept;
          } else {
            assert r[i] == kept[i] && r[j] == kept[j];
          }
        }
      } else {
        assert FilterEntries(d, c) == kept;
      }
    }
  }

  /** The kept entries form a sub-mapping of the dictionary: exactly the accepted
      words, each with its own frequency. */
  lemma FilterEntriesSubMap(d: Dict, c: Compiled)
    requires |c.classes| >= WordLength && DistinctWords(d)
    ensures DistinctWords(FilterEntries(d, c))
    ensures AsMap(FilterEntries(d, c)) == map w | w in AsMap(d) && Matches(c, w) :: AsMap(d)[w]
  {
    var r := FilterEntries(d, c);
    FilterEntriesMembers(d, c);
    FilterEntriesDistinct(d, c);
    var expected := map w | w in AsMap(d) && Matches(c, w) :: AsMap(d)[w];
    forall w ensures w in AsMap(r) <==> w in expected {
      if w in expected {
        var e :| e in d && e.word == w;
        assert e in r;
      }
    }
    forall w | w in AsMap(r) ensures AsMap(r)[w] == expected[w] {
      var e :| e in r && e.word == w;
      AsMapValue(r, e);
      AsMapValue(d, e);
    }
  }

  /** `guess_filter` returns a sub-mapping of its dictionary: the words whose letters
      lie in their positions' classes and that hold every yellow letter, with their
      frequencies; nothing when `build_regex` raises. */
  lemma GuessFilterSubMap(guess: string, combo: Combo, d: Dict, init: seq<Letters>)
    requires Indexable(guess, combo, init) && DistinctWords(d)
    ensures DistinctWords(GuessFilterSpec(guess, combo, d, init))
    ensures AsMap(GuessFilterSpec(guess, combo, d, init)) ==
      match BuildRegexSpec(guess, combo, init)
      case Failure(_) => map[]
      case Success(c) => map w | w in AsMap(d) && Matches(c, w) :: AsMap(d)[w]
  {
    match BuildRegexSpec(guess, combo, init)
    case Failure(_) =>
    case Success(c) => FilterEntriesSubMap(d, c);
  }

  /** When `build_regex` raises, the filter returns the empty dictionary. */
  lemma GuessFilterEmptyOnError(guess: string, combo: Combo, d: Dict, init: seq<Letters>)
    requires Indexable(guess, combo, init) && BuildRegexSpec(guess, combo, init).Failure?
    ensures GuessFilterSpec(guess, combo, d, init) == []
  {
  }

  /** The filter for this guess and pattern keeps word w: `build_regex` succeeds and
      its result accepts w. */
  predicate Admits(guess: string, combo: Combo, init: seq<Letters>, w: string)
    requires Indexable(guess, combo, init)
  {
    BuildRegexSpec(guess, combo, init).Success? && Matches(BuildRegexSpec(guess, combo, init).value, w)
  }

  /** An entry is in the result of `guess_filter` exactly when it is in the dictionary
      and the filter admits its word. */
  lemma GuessFilterKeeps(guess: string, combo: Combo, d: Dict, init: seq<Letters>)
    requires Indexable(guess, combo, init)
    ensures |GuessFilterSpec(guess, combo, d, init)| <= |d|
    ensures forall e :: e in GuessFilterSpec(guess, combo, d, init) <==> e in d && Admits(guess, combo, init, e.word)
  {
    if BuildRegexSpec(guess, combo, init).Success? {
      FilterEntriesMembers(d, BuildRegexSpec(guess, combo, init).value);
    }
  }

  /** Every five-letter word the filter admits agrees with the feedback: the guessed
      letter at each green position, a different letter at each yellow position but
      that letter somewhere in the word, and no grey letter anywhere. */
  lemma AdmitsSound(guess: string, combo: Combo, init: seq<Letters>, w: string)
    requires Indexable(guess, combo, init) && ListsNoDup(init)
    requires |w| == WordLength && Admits(guess, combo, init, w)
    ensures forall i :: 0 <= i < WordLength && IsGreen(combo[i]) ==> w[i] == guess[i]
    ensures forall i :: 0 <= i < WordLength && IsYellow(combo[i]) ==> w[i] != guess[i] && guess[i] in w
    ensures forall i :: 0 <= i < WordLength && IsGrey(combo[i]) ==> guess[i] !in w
  {
    var c := BuildRegexSpec(guess, combo, init).value;
    BuildRegexMatchesDerived(guess, combo, init);
    SearchFiveLetters(c.classes, w);
    YellowsInIsYellowMarks(guess, combo, WordLength);
    var greys := GreysIn(guess, combo, 0, WordLength);
    var nongreys := NonGreysIn(guess, combo, WordLength);
    assert forall i :: 0 <= i < WordLength ==> w[i] in AllowedAt(guess, combo, init, i);
    forall i | 0 <= i < WordLength && IsGrey(combo[i]) ensures guess[i] !in w {
      assert guess[i] in greys;
      forall j | 0 <= j < WordLength ensures w[j] != guess[i] {
        assert w[j] in AllowedAt(guess, combo, init, j);
        if IsGreen(combo[j]) {
          assert w[j] == guess[j];
          assert guess[j] in nongreys;
          assert guess[i] !in greys * nongreys;
        } else {
          assert w[j] in Keep(init[j], greys + OwnDrop(guess, combo, j));
        }
      }
    }
  }

  /** Every five-letter word `guess_filter` returns comes from the dictionary and
      agrees with the feedback at every position. */
  lemma GuessFilterSound(guess: string, combo: Combo, d: Dict, init: seq<Letters>, e: Entry)
    requires Indexable(guess, combo, init) && ListsNoDup(init)
    requires e in GuessFilterSpec(guess, combo, d, init) && |e.word| == WordLength
    ensures e in d
    ensures forall i :: 0 <= i < WordLength && IsGreen(combo[i]) ==> e.word[i] == guess[i]
    ensures forall i :: 0 <= i < WordLength && IsYellow(combo[i]) ==>
      e.word[i] != guess[i] && guess[i] in e.word
    ensures forall i :: 0 <= i < WordLength && IsGrey(combo[i]) ==> guess[i] !in e.word
  {
    GuessFilterKeeps(guess, combo, d, init);
    AdmitsSound(guess, combo, init, e.word);
  }

  /** The all-green classes accept a five-letter word exactly when it is the guess. */
  lemma AllGreenAccepts(guess: string, w: string)
    requires |guess| == WordLength && |w| == WordLength
    ensures Matches(Compiled(seq(WordLength, i requires 0 <= i < WordLength => [guess[i]]), []), w) <==> w == guess
  {
    var c := Compiled(seq(WordLength, i requires 0 <= i < WordLength => [guess[i]]), []);
    SearchFiveLetters(c.classes, w);
    assert forall i :: 0 <= i < WordLength ==> c.classes[i] == [guess[i]];
    if Matches(c, w) {
      assert forall i :: 0 <= i < WordLength ==> w[i] == guess[i];
    }
  }

  /** With the all-green pattern a dictionary of five-letter words keeps exactly the
      guess's own entry, if it has one. */
  lemma GuessFilterAllGreen(guess: string, combo: Combo, d: Dict, init: seq<Letters>)
    requires |guess| == WordLength && Indexable(guess, combo, init) && AllGreen(combo)
    requires DistinctWords(d) && FiveLetterWords(d)
    ensures AsMap(GuessFilterSpec(guess, combo, d, init)) ==
      if guess in AsMap(d) then map[guess := AsMap(d)[guess]] else map[]
  {
    AllGreenOverwrites(guess, combo, init);
    FilterExactly(guess, d);
  }

  /** Filtering with one single-letter class per position keeps just the guess's entry. */
  lemma FilterExactly(guess: string, d: Dict)
    requires |guess| == WordLength && DistinctWords(d) && FiveLetterWords(d)
    ensures var c := Compiled(seq(WordLength, i requires 0 <= i < WordLength => [guess[i]]), []);
      AsMap(FilterEntries(d, c)) == if guess in AsMap(d) then map[guess := AsMap(d)[guess]] else map[]
  {
    var c := Compiled(seq(WordLength, i requires 0 <= i < WordLength => [guess[i]]), []);
    FilterEntriesSubMap(d, c);
    var m := AsMap(d);
    var expected := map w | w in m && Matches(c, w) :: m[w];
    var target := if guess in m then map[guess := m[guess]] else map[];
    forall w ensures w in expected <==> w in target {
      if w in m {
        var e :| e in d && e.word == w;
        AllGreenAccepts(guess, w);
      }
    }
    assert expected == target;
  }

  /** A pattern that is green everywhere except one yellow position, whose letter is
      guessed at no green position, keeps no five-letter word. */
  lemma GuessFilterOneYellow(guess: string, combo: Combo, d: Dict, init: seq<Letters>, p: nat)
    requires Indexable(guess, combo, init) && ListsNoDup(init) && FiveLetterWords(d)
    requires p < WordLength && IsYellow(combo[p])
    requires forall i :: 0 <= i < WordLength && i != p ==> IsGreen(combo[i]) && guess[i] != guess[p]
    ensures GuessFilterSpec(guess, combo, d, init) == []
  {
    var r := GuessFilterSpec(guess, combo, d, init);
    if r != [] {
      GuessFilterKeeps(guess, combo, d, init);
      assert r[0] in r;
      GuessFilterSound(guess, combo, d, init, r[0]);
      assert false;
    }
  }
}
