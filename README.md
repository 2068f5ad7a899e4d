# Wordle first-guess engine, modelled in Dafny

The engine scores every candidate first guess in Wordle by how much it splits the
dictionary of five-letter words. For one guess it walks through all 3^5 = 243
colour patterns (green, yellow, grey per position). For each pattern it:

1. derives per-position character classes and a list of required ("yellow")
   letters (`build_regex`);
2. filters the dictionary down to the words consistent with that feedback
   (`guess_filter`);
3. weighs each non-empty subset by its share of the total word frequency
   (`calculate_scores_`).

The driver (`calculate_scores`) cuts the word list into one contiguous slice per
worker process and merges what the workers write.

The model has six modules, one per stage of `py/play.py`:

- `Wrappers`: a `Result` type for the `ValueError` paths.
- `Patterns`: `COLORS`, `NUM_COMBOS` and the five nested loops that build
  `COLOR_COMBOS`. `ColorCombos` is a method with those loops. It is proved equal
  to the reference list in which entry k is the base-3 expansion of k. The list
  is complete, duplicate-free and lexicographically increasing.
- `Constraints`: `build_regex`.
  - `BuildRegex` is an imperative method that edits an `array` of letter lists
    in place, exactly as the source edits `remaining_letters`.
  - It is proved against `BuildRegexSpec`, the loop run position by position.
    `BuildRegexSpec` in turn is proved equal to `Derived`, a definition with no
    loop: each position is the guessed letter if green; otherwise the input list
    minus every grey letter and, if yellow, minus the guessed letter.
  - The three ways the source raises are `Failure` values:
    - `list.remove` on a missing letter;
    - a letter both grey and non-grey;
    - a position with no letters left.
  - The compiled regular expression is represented by its five character
    classes; `rgx.search` is modelled as "some five-letter window fits the
    classes".
- `Filter`: `guess_filter`. The dictionary is a sequence of entries in insertion
  order (`Dict`), with a map view `AsMap` for stating sub-mapping properties.
  `GuessFilter` is a method with the source's loops, including the
  `all_yellow_letters_found` flag. It is proved equal to `GuessFilterSpec`.
- `Scoring`: the integer part of `calculate_scores_`.
  - The per-pattern loop runs on a deep copy of the letter lists each time.
  - The profile of a guess is the list of subset masses (`combo_freq`) that the
    entropy sum reads.
  - The central property is mass conservation: on five-letter words, each word
    lands in exactly one pattern's subset, namely the pattern `Feedback` gives, when
    the letter lists hold the letters of the word and of the guess.
    So the masses add up to `freq_total`, and the proportions the entropy
    formula weighs sum to one.
- `Dispatch`: `calculate_scores`. The chunking loop is written exactly as the
  source writes it, including the update on line 136
  (`numwords_per_process - (numwords_per_process - numwords)`, which is just
  `numwords`). It is proved to cut contiguous slices of `ceil(n / p)` words that,
  laid end to end, give back the word list. The merge of the workers'
  dictionaries is proved to give every word its profile.

`build_regex("helio", [1, 2, 2, 0, 1], ABC)` gives yellow letters `["h", "o"]`
(positions 0 and 4 are yellow), and position 1 excludes only `e` and `l` (it is
grey, and only grey letters and a position's own yellow letter are removed).
`Constraints.HelioExampleOnABC` proves the five classes that the test expression at
py/play.py:156 lists.

## Model

| member | source | states |
|---|---|---|
| Patterns.ColorCombos | py/play.py:16-24 | the five nested loops over the colour values build exactly the 243-entry list whose entry k is the base-3 expansion of k |
| Patterns.CombosWellFormed | py/play.py:17-24 | the list has 3^5 = 243 entries and each is a five-position pattern over green, yellow and grey |
| Patterns.CombosDistinct | py/play.py:19-24 | no two entries of `COLOR_COMBOS` are equal |
| Patterns.CombosComplete | py/play.py:19-24 | every five-position colour pattern occurs, at the index given by its base-3 value |
| Patterns.CombosOrdered | py/play.py:19-24 | the entries come in strictly increasing lexicographic order (green < yellow < grey), the nesting order of the loops |
| Patterns.ValueDigits | py/play.py:19-24 | a pattern's base-3 value lies in 0..242 and its expansion gives the pattern back |
| Patterns.DigitsValue | py/play.py:19-24 | expanding k in base 3 and reading the digits back gives k |
| Constraints.BuildRegex | py/play.py:41-71 | the in-place edit of the letter lists returns the classes and yellow letters, or the error raised; the lists end as the loop leaves them, including when `remove` raises part-way |
| Constraints.BuildRegexMatchesDerived | py/play.py:41-71 | the loop's outcome equals the loop-free definition: green positions hold the guessed letter, the others their list minus all grey letters and their own yellow letter; on success the caller's lists are left holding those classes |
| Constraints.BuildRegexSuccessShape | py/play.py:45-71 | on success: green gives `[letter]`, yellow gives the list minus greys and the letter, grey gives the list minus greys; yellow letters come in position order |
| Constraints.YellowsInIsYellowMarks | py/play.py:53-55 | the yellow-letter list holds exactly the letters marked yellow, at most one per position |
| Constraints.BuildRegexSucceedsIff | py/play.py:56-68 | success exactly when every yellow letter is in its own list, no letter is both grey and non-grey, and no position is empty (both directions) |
| Constraints.BuildRegexRejectsGreyAndNonGrey | py/play.py:63-64 | a letter marked grey at one position and green or yellow at another always gives an error |
| Constraints.GreyThenYellowRaisesInRemove | py/play.py:56-62 | a letter greyed at an earlier position and yellow at a later one makes `list.remove` raise |
| Constraints.BuildRegexRejectsEmptyPosition | py/play.py:66-68 | a position whose allowed letters run out makes `build_regex` raise |
| Constraints.BuildRegexOutOfLetters | py/play.py:66-68 | when no yellow letter is missing from its list and no letter is both grey and non-grey, a position whose allowed letters run out raises the out-of-letters error |
| Constraints.AllGreenOverwrites | py/play.py:49-51 | with the all-green pattern every class is the guessed letter, whatever the lists held, and there are no yellow letters |
| Constraints.KeepShrinks | py/play.py:56-62 | removing letters from a list never lengthens it |
| Constraints.RemoveFirstIsKeep | py/play.py:56-62 | on a list without repeats, `list.remove(x)` equals dropping every x |
| Constraints.HelioExample | py/play.py:156 | `build_regex("helio", [1, 2, 2, 0, 1], lists)` succeeds with the classes the test expression lists and yellow letters "ho", for five copies of any list spelling the alphabet in order |
| Constraints.HelioExampleOnABC | py/play.py:156 | the same outcome on `ABC` itself, the five copies of `string.ascii_lowercase` |
| Filter.GuessFilter | py/play.py:76-93 | the method returns the entries that the compiled classes accept and that contain every yellow letter, in dictionary order; empty when `build_regex` raises |
| Filter.SearchFromIff | py/play.py:83 | `rgx.search` succeeds exactly when some five-letter window of the word fits the classes |
| Filter.SearchFiveLetters | py/play.py:83 | on a five-letter word the search succeeds exactly when letter i is in class i for every i |
| Filter.FilterEntriesMembers | py/play.py:82-92 | an entry is kept exactly when it is in the dictionary and accepted; the result is no longer than the dictionary |
| Filter.FilterEntriesDistinct | py/play.py:77-92 | the result has no repeated key |
| Filter.GuessFilterSubMap | py/play.py:76-93 | as a map, the result is the dictionary restricted to the accepted words, each with its own frequency, or empty on error |
| Filter.GuessFilterEmptyOnError | py/play.py:78-81 | when `build_regex` raises, the filter returns the empty dictionary |
| Filter.GuessFilterKeeps | py/play.py:76-93 | an entry is in the result exactly when it is in the dictionary and the pattern's filter admits its word |
| Filter.AdmitsSound | py/play.py:41-93 | every admitted five-letter word has the guessed letter at green positions and a different letter at yellow positions, contains each yellow letter somewhere, and contains no grey letter |
| Filter.GuessFilterSound | py/play.py:76-93 | every five-letter entry returned comes from the dictionary and agrees with the feedback at every position |
| Filter.GuessFilterAllGreen | py/play.py:158 | the all-green pattern keeps exactly the guess's own entry, if the dictionary has it |
| Filter.GuessFilterOneYellow | py/play.py:160 | green everywhere except one yellow position, whose letter is guessed at no green position, keeps no five-letter word |
| Scoring.SubsetsByCombo | py/play.py:103-110 | filtering against each pattern on a fresh deep copy of the lists and keeping the non-empty results gives the reference subsets; with no `modifies` clause the caller's lists cannot change |
| Scoring.ScoreGuess | py/play.py:103-114 | one guess's subset masses, in pattern order, are its profile over all 243 patterns |
| Scoring.CalculateScoresWorker | py/play.py:97-120 | a worker writes one entry per guess of its slice and nothing else, each holding that guess's profile |
| Scoring.NonEmptySubsetsShape | py/play.py:103-110 | the subsets are at most one per pattern; each is some pattern's non-empty filter result, and every non-empty result is kept |
| Scoring.SubsetMassBounds | py/play.py:114-126 | with non-negative frequencies each subset's mass is between 0 and `freq_total` |
| Scoring.FeedbackAdmitted | py/play.py:41-110 | the pattern `Feedback` gives for the guess and a word admits that word, when the lists hold its letters |
| Scoring.AdmittedIsFeedback | py/play.py:41-110 | any pattern that admits a five-letter word is the pattern `Feedback` gives for it |
| Scoring.AdmitsAt | py/play.py:104-110 | among the 243 patterns, only the one at the index of the word's feedback admits it |
| Scoring.MassOverAll | py/play.py:104-114 | over all patterns a word's frequency is counted exactly once |
| Scoring.GuessProfileMass | py/play.py:113-126 | the masses of a guess's subsets add up to `freq_total`, so the proportions summed in the entropy loop total one |
| Dispatch.PartitionWords | py/play.py:127-136 | the chunking loop, written with its line 136 update, produces for worker i the slice `words[i*c : i*c+c]` with c = ceil(n / p) |
| Dispatch.ConcatChunks | py/play.py:127-136 | the slices laid end to end give back `list(remaining_words)` in order, so every word goes to some worker |
| Dispatch.ChunksBounded | py/play.py:130-133 | each slice has at most ceil(n / p) words |
| Dispatch.ChunksDisjoint | py/play.py:127-136 | with distinct keys, two different slices share no word |
| Dispatch.ChunkWithin | py/play.py:133 | each slice is the contiguous run of the word list from i*c, clipped to its end |
| Dispatch.CeilDivCovers | py/play.py:130 | p slices of ceil(n / p) words reach the end of the list, and fewer words per slice would not |
| Dispatch.RunWorkers | py/play.py:145-151 | running the workers one after another and merging what each writes gives every word of the slices laid end to end, each with its profile |
| Dispatch.MergeScored | py/play.py:145-151 | merging a worker's dictionary into the shared one adds that slice's words, each with its profile |
| Dispatch.CalculateScores | py/play.py:125-151 | `freq_total` is the sum of the frequencies, and the result maps exactly the dictionary's words, each to its profile |

## Left out

- Loading `WORDS` from the word list and the frequency file (lines 25-35): file I/O. The dictionary is a parameter.
- The log file (lines 100-102, 143-144): file and clock I/O with no effect on the result.
- The process pool and the `Manager` dictionary (lines 145-150): the workers run one after another. Each writes only the words of its own slice, and slices are disjoint, so the merge does not depend on the order.
- `NUM_PROCESSES = os.cpu_count()`: a parameter `processes > 0`.
- Scoring.ScoreGuess: does not compute the floating-point entropy (lines 112-119, `math.log2` and the division by `freq_total`). It returns the integer subset masses that are that formula's only other inputs. `GuessProfileMass` proves those masses sum to `freq_total`.
- The division by zero at line 115 when `freq_total` is 0: the float step is not modelled.
- `math.ceil(numwords / NUM_PROCESSES)` is floating-point division rounded up. It is modelled as integer ceiling division, which agrees for every word count below 2^53 (the source's word lists are far smaller).
- `re.compile` and the regular-expression engine: a class `[...]` is modelled by its letter list. Letters are assumed not to be regex metacharacters, as with the lowercase alphabet.
- Aliasing between the inner lists of `remaining_letters`: the lists are values in the model. With `copy.deepcopy(ABC)`, as every caller passes, no two positions share a list.
- Inputs shorter than five positions (an `IndexError` in the source) are excluded by preconditions. So are dictionary keys shorter than five letters when used as guesses.
- The expected scores in the tests (`"octan"`, scores 1.6 and 1.0): they depend on the contents of the data files, which are not part of this model. The data-independent tests on lines 156, 158 and 160 are modelled.
