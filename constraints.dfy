/**
  Constraint derivation (`build_regex`): from a guess and a colour pattern,
  narrow the caller's per-position letter lists and collect the yellow letters.
  The compiled expression is one character class per position, so it is kept
  here as the list of those classes.
 */
module Constraints {
  import opened Wrappers
  import opened Patterns

  /** One position's remaining letters, in list order. */
  type Letters = seq<char>

  /** Why `build_regex` raised `ValueError`. */
  datatype BuildError =
    | LetterNotInList   // `list.remove` of a yellow letter that is not there
    | GreyAndNonGrey    // a letter marked both grey and green/yellow
    | OutOfLetters      // some position has no letter left

  /** What `build_regex` returns: the character classes and the yellow letters. */
  datatype Compiled = Compiled(classes: seq<Letters>, yellowLetters: seq<char>)

  predicate IsGreen(v: int) { v == Green }
  predicate IsYellow(v: int) { v == Yellow }
  /** Every code other than green and yellow takes the `else` branch. */
  predicate IsGrey(v: int) { v != Green && v != Yellow }

  /** The inputs `build_regex` indexes without raising `IndexError`. */
  predicate Indexable(guess: string, combo: Combo, lists: seq<Letters>) {
    |guess| >= WordLength && |combo| >= WordLength && |lists| >= WordLength
  }

  predicate NoDup(s: Letters) {
    forall i, j :: 0 <= i < j < |s| ==> s[i] != s[j]
  }

  /** The first WordLength lists have no repeated letter (as the full alphabet has not). */
  predicate ListsNoDup(lists: seq<Letters>) {
    forall j :: 0 <= j < |lists| && j < WordLength ==> NoDup(lists[j])
  }

  /** Python's `list.remove(x)` for an x that occurs: drop its first occurrence. */
  function RemoveFirst(s: Letters, x: char): (r: Letters)
    ensures |r| <= |s|
  {
    if s == [] then []
    else if s[0] == x then s[1..]
    else [s[0]] + RemoveFirst(s[1..], x)
  }

  /** The letters of s that are not in drop, in their original order. */
  function Keep(s: Letters, drop: set<char>): (r: Letters)
    ensures forall x :: x in r <==> x in s && x !in drop
  {
    if s == [] then []
    else if s[0] in drop then Keep(s[1..], drop)
    else [s[0]] + Keep(s[1..], drop)
  }

  // ---------------------------------------------------------------------------
  // The loop of `build_regex`, one position at a time
  // ---------------------------------------------------------------------------

  /** The loop state: the caller's lists, `yellow_letters`, `greys`, `nongreys`,
      and whether `list.remove` has raised. */
  datatype Scan = Scan(lists: seq<Letters>, yellows: seq<char>, greys: set<char>,
                       nongreys: set<char>, stuck: bool)

  /** The grey branch: remove x (first occurrence) from each of the first WordLength lists that holds it. */
  function RemoveEverywhere(lists: seq<Letters>, x: char): (r: seq<Letters>)
    ensures |r| == |lists|
  {
    seq(|lists|, j requires 0 <= j < |lists| =>
      if j < WordLength && x in lists[j] then RemoveFirst(lists[j], x) else lists[j])
  }

  /** One iteration of the loop, at position i. */
  function Step(guess: string, combo: Combo, s: Scan, i: nat): (r: Scan)
    requires i < WordLength && Indexable(guess, combo, s.lists)
    ensures |r.lists| == |s.lists|
  {
    var letter := guess[i];
    if IsGreen(combo[i]) then
      s.(nongreys := s.nongreys + {letter}, lists := s.lists[i := [letter]])
    else if IsYellow(combo[i]) then
      if letter in s.lists[i] then
        s.(nongreys := s.nongreys + {letter}, yellows := s.yellows + [letter],
           lists := s.lists[i := RemoveFirst(s.lists[i], letter)])
      else
        s.(stuck := true)
    else
      s.(greys := s.greys + {letter}, lists := RemoveEverywhere(s.lists, letter))
  }

  /** The loop state after positions 0..k-1 (frozen at the position where `remove` raised). */
  function ScanPrefix(guess: string, combo: Combo, init: seq<Letters>, k: nat): (s: Scan)
    requires k <= WordLength && Indexable(guess, combo, init)
    ensures |s.lists| == |init|
  {
    if k == 0 then Scan(init, [], {}, {}, false)
    else
      var p := ScanPrefix(guess, combo, init, k - 1);
      if p.stuck then p else Step(guess, combo, p, k - 1)
  }

  /** The caller's lists after `build_regex` returns or raises. */
  function LettersAfter(guess: string, combo: Combo, init: seq<Letters>): (r: seq<Letters>)
    requires Indexable(guess, combo, init)
    ensures |r| == |init|
  {
    ScanPrefix(guess, combo, init, WordLength).lists
  }

  /** What `build_regex` returns or raises, given the caller's lists on entry. */
  function BuildRegexSpec(guess: string, combo: Combo, init: seq<Letters>): (r: Result<Compiled, BuildError>)
    requires Indexable(guess, combo, init)
    ensures r.Success? ==> |r.value.classes| == WordLength
  {
    var s := ScanPrefix(guess, combo, init, WordLength);
    if s.stuck then Failure(LetterNotInList)
    else if s.greys * s.nongreys != {} then Failure(GreyAndNonGrey)
    else if exists i :: 0 <= i < WordLength && |s.lists[i]| == 0 then Failure(OutOfLetters)
    else Success(Compiled(s.lists[..WordLength], s.yellows))
  }

  /** `build_regex`: edits `remaining` in place, as the source does. */
  method BuildRegex(guess: string, combo: Combo, remaining: array<Letters>)
    returns (r: Result<Compiled, BuildError>)
    requires Indexable(guess, combo, remaining[..])
    modifies remaining
    ensures r == BuildRegexSpec(guess, combo, old(remaining[..]))
    ensures remaining[..] == LettersAfter(guess, combo, old(remaining[..]))
  {
    ghost var init := remaining[..];
    var yellowLetters: seq<char> := [];
    var greys: set<char> := {};
    var nongreys: set<char> := {};
    for i := 0 to WordLength
      invariant ScanPrefix(guess, combo, init, i) == Scan(remaining[..], yellowLetters, greys, nongreys, false)
    {
      var current := guess[i];
      if combo[i] == Green {
        nongreys := nongreys + {current};
        remaining[i] := [current];
      } else if combo[i] == Yellow {
        nongreys := nongreys + {current};
        yellowLetters := yellowLetters + [current];
        if current !in remaining[i] {
          // `list.remove` raises; the lists stay as they are
          StuckStays(guess, combo, init, i + 1, WordLength);
          return Failure(LetterNotInList);
        }
        remaining[i] := RemoveFirst(remaining[i], current);
      } else {
        greys := greys + {current};
        ghost var before := remaining[..];
        for j := 0 to WordLength
          invariant remaining.Length == |before|
          invariant forall m :: 0 <= m < |before| ==>
            remaining[m] == if m < j && current in before[m] then RemoveFirst(before[m], current) else before[m]
        {
          if current in remaining[j] {
            remaining[j] := RemoveFirst(remaining[j], current);
          }
        }
        assert remaining[..] == RemoveEverywhere(before, current);
      }
    }
    if greys * nongreys != {} {
      return Failure(GreyAndNonGrey);
    }
    for i := 0 to WordLength
      invariant forall k :: 0 <= k < i ==> |remaining[k]| != 0
    {
      if |remaining[i]| == 0 {
        return Failure(OutOfLetters);
      }
    }
    return Success(Compiled(remaining[..WordLength], yellowLetters));
  }

  lemma StuckStays(guess: string, combo: Combo, init: seq<Letters>, k: nat, n: nat)
    requires k <= n <= WordLength && Indexable(guess, combo, init)
    requires ScanPrefix(guess, combo, init, k).stuck
    ensures ScanPrefix(guess, combo, init, n) == ScanPrefix(guess, combo, init, k)
    decreases n - k
  {
    if k < n {
      StuckStays(guess, combo, init, k + 1, n);
    }
  }

  // ---------------------------------------------------------------------------
  // Reference definition: what the derivation means, position by position
  // ---------------------------------------------------------------------------

  /** Letters marked grey at positions a..b-1. */
  function GreysIn(guess: string, combo: Combo, a: nat, b: nat): set<char>
    requires a <= b <= WordLength && |guess| >= WordLength && |combo| >= WordLength
  {
    set i | a <= i < b && IsGrey(combo[i]) :: guess[i]
  }

  /** Letters marked green or yellow at positions 0..b-1. */
  function NonGreysIn(guess: string, combo: Combo, b: nat): set<char>
    requires b <= WordLength && |guess| >= WordLength && |combo| >= WordLength
  {
    set i | 0 <= i < b && !IsGrey(combo[i]) :: guess[i]
  }

  /** The yellow-marked letters among positions 0..k-1, in position order. */
  function YellowsIn(guess: string, combo: Combo, k: nat): seq<char>
    requires k <= WordLength && |guess| >= WordLength && |combo| >= WordLength
  {
    if k == 0 then []
    else YellowsIn(guess, combo, k - 1) + (if IsYellow(combo[k - 1]) then [guess[k - 1]] else [])
  }

  /** The letter a yellow mark takes out of its own position. */
  function OwnDrop(guess: string, combo: Combo, i: nat): set<char>
    requires i < WordLength && |guess| >= WordLength && |combo| >= WordLength
  {
    if IsYellow(combo[i]) then {guess[i]} else {}
  }

  /** The allowed letters at position i: the guessed letter if green; otherwise the
      input list minus every grey letter and, if yellow, minus the guessed letter. */
  function AllowedAt(guess: string, combo: Combo, init: seq<Letters>, i: nat): Letters
    requires i < WordLength && Indexable(guess, combo, init)
  {
    if IsGreen(combo[i]) then [guess[i]]
    else Keep(init[i], GreysIn(guess, combo, 0, WordLength) + OwnDrop(guess, combo, i))
  }

  /** The yellow letter at position t cannot be removed: it is not in its list, or an
      earlier grey mark has already removed it. */
  predicate YellowMissing(guess: string, combo: Combo, init: seq<Letters>, t: nat)
    requires t < WordLength && Indexable(guess, combo, init)
  {
    IsYellow(combo[t]) && (guess[t] !in init[t] || guess[t] in GreysIn(guess, combo, 0, t))
  }

  /** Reference outcome, stated without the loop. */
  function Derived(guess: string, combo: Combo, init: seq<Letters>): Result<Compiled, BuildError>
    requires Indexable(guess, combo, init)
  {
    if exists t :: 0 <= t < WordLength && YellowMissing(guess, combo, init, t) then
      Failure(LetterNotInList)
    else if GreysIn(guess, combo, 0, WordLength) * NonGreysIn(guess, combo, WordLength) != {} then
      Failure(GreyAndNonGrey)
    else if exists i :: 0 <= i < WordLength && AllowedAt(guess, combo, init, i) == [] then
      Failure(OutOfLetters)
    else
      Success(Compiled(seq(WordLength, i requires 0 <= i < WordLength => AllowedAt(guess, combo, init, i)),
                       YellowsIn(guess, combo, WordLength)))
  }

  /** Position j's list after k iterations, when nothing has raised. */
  function ListAfter(guess: string, combo: Combo, init: seq<Letters>, j: nat, k: nat): Letters
    requires j < |init| && k <= WordLength && Indexable(guess, combo, init)
  {
    if j < k && IsGreen(combo[j]) then Keep([guess[j]], GreysIn(guess, combo, j + 1, k))
    else if j < WordLength then
      Keep(init[j], GreysIn(guess, combo, 0, k) + (if j < k then OwnDrop(guess, combo, j) else {}))
    else init[j]
  }

  // ---------------------------------------------------------------------------
  // Facts about Keep and RemoveFirst
  // ---------------------------------------------------------------------------

  lemma {:induction false} KeepNoDup(s: Letters, drop: set<char>)
    requires NoDup(s)
    ensures NoDup(Keep(s, drop))
  {
    if s != [] {
      KeepNoDup(s[1..], drop);
    }
  }

  lemma {:induction false} KeepAbsent(s: Letters, drop: set<char>)
    requires forall x :: x in s ==> x !in drop
    ensures Keep(s, drop) == s
  {
    if s != [] {
      assert s[0] in s;
      assert forall x :: x in s[1..] ==> x in s;
      KeepAbsent(s[1..], drop);
    }
  }

  lemma {:induction false} KeepKeep(s: Letters, a: set<char>, b: set<char>)
    ensures Keep(Keep(s, a), b) == Keep(s, a + b)
  {
    if s != [] {
      KeepKeep(s[1..], a, b);
    }
  }

  lemma {:induction false} RemoveFirstIsKeep(s: Letters, x: char)
    requires NoDup(s)
    ensures RemoveFirst(s, x) == Keep(s, {x})
  {
    if s != [] {
      if s[0] == x {
        assert forall y :: y in s[1..] ==> y != x by {
          forall y | y in s[1..] ensures y != x {
            var m :| 0 <= m < |s[1..]| && s[1..][m] == y;
            assert s[m + 1] == y;
          }
        }
        KeepAbsent(s[1..], {x});
      } else {
        RemoveFirstIsKeep(s[1..], x);
      }
    }
  }

  /** The grey branch on one duplicate-free list removes the letter entirely. */
  lemma GreyRemoval(s: Letters, x: char)
    requires NoDup(s)
    ensures (if x in s then RemoveFirst(s, x) else s) == Keep(s, {x})
  {
    if x in s {
      RemoveFirstIsKeep(s, x);
    } else {
      KeepAbsent(s, {x});
    }
  }

  // ---------------------------------------------------------------------------
  // The loop agrees with the reference definition
  // ---------------------------------------------------------------------------

  lemma GreysInStep(guess: string, combo: Combo, a: nat, k: nat)
    requires a <= k < WordLength && |guess| >= WordLength && |combo| >= WordLength
    ensures GreysIn(guess, combo, a, k + 1)
         == GreysIn(guess, combo, a, k) + (if IsGrey(combo[k]) then {guess[k]} else {})
  {
    var extra := if IsGrey(combo[k]) then {guess[k]} else {};
    assert forall x :: x in GreysIn(guess, combo, a, k + 1) ==> x in GreysIn(guess, combo, a, k) + extra;
    assert IsGrey(combo[k]) ==> guess[k] in GreysIn(guess, combo, a, k + 1);
  }

  lemma NonGreysInStep(guess: string, combo: Combo, k: nat)
    requires k < WordLength && |guess| >= WordLength && |combo| >= WordLength
    ensures NonGreysIn(guess, combo, k + 1)
         == NonGreysIn(guess, combo, k) + (if IsGrey(combo[k]) then {} else {guess[k]})
  {
    var extra := if IsGrey(combo[k]) then {} else {guess[k]};
    assert forall x :: x in NonGreysIn(guess, combo, k + 1) ==> x in NonGreysIn(guess, combo, k) + extra;
    assert !IsGrey(combo[k]) ==> guess[k] in NonGreysIn(guess, combo, k + 1);
  }

  /** The sets and the yellow list the loop keeps, after k iterations. */
  lemma {:induction false} ScanSets(guess: string, combo: Combo, init: seq<Letters>, k: nat)
    requires k <= WordLength && Indexable(guess, combo, init)
    ensures var s := ScanPrefix(guess, combo, init, k);
      !s.stuck ==>
        && s.greys == GreysIn(guess, combo, 0, k)
        && s.nongreys == NonGreysIn(guess, combo, k)
        && s.yellows == YellowsIn(guess, combo, k)
  {
    if k > 0 {
      ScanSets(guess, combo, init, k - 1);
      GreysInStep(guess, combo, 0, k - 1);
      NonGreysInStep(guess, combo, k - 1);
    }
  }

  /** Every list the loop can see is free of repeated letters. */
  lemma ListAfterNoDup(guess: string, combo: Combo, init: seq<Letters>, j: nat, k: nat)
    requires j < |init| && j < WordLength && k <= WordLength && Indexable(guess, combo, init) && ListsNoDup(init)
    ensures NoDup(ListAfter(guess, combo, init, j, k))
  {
    if j < k && IsGreen(combo[j]) {
      KeepNoDup([guess[j]], GreysIn(guess, combo, j + 1, k));
    } else {
      KeepNoDup(init[j], GreysIn(guess, combo, 0, k) + (if j < k then OwnDrop(guess, combo, j) else {}));
    }
  }

  /** A grey iteration at k moves a green position j < k from ListAfter(k) to ListAfter(k + 1). */
  lemma GreyStepGreen(guess: string, combo: Combo, init: seq<Letters>, k: nat, j: nat)
    requires k < WordLength && Indexable(guess, combo, init) && IsGrey(combo[k])
    requires j < k && IsGreen(combo[j])
    ensures Keep(Keep([guess[j]], GreysIn(guess, combo, j + 1, k)), {guess[k]})
         == Keep([guess[j]], GreysIn(guess, combo, j + 1, k + 1))
  {
    GreysInStep(guess, combo, j + 1, k);
    KeepKeep([guess[j]], GreysIn(guess, combo, j + 1, k), {guess[k]});
  }

  /** A grey iteration at k moves any other position j < WordLength from ListAfter(k) to
      ListAfter(k + 1). */
  lemma GreyStepOther(guess: string, combo: Combo, init: seq<Letters>, k: nat, j: nat)
    requires k < WordLength && Indexable(guess, combo, init) && IsGrey(combo[k])
    requires j < WordLength && !(j < k && IsGreen(combo[j]))
    ensures var own := if j < k then OwnDrop(guess, combo, j) else {};
      Keep(Keep(init[j], GreysIn(guess, combo, 0, k) + own), {guess[k]})
      == Keep(init[j], GreysIn(guess, combo, 0, k + 1) + (if j < k + 1 then OwnDrop(guess, combo, j) else {}))
  {
    GreysInStep(guess, combo, 0, k);
    var own := if j < k then OwnDrop(guess, combo, j) else {};
    KeepKeep(init[j], GreysIn(guess, combo, 0, k) + own, {guess[k]});
    if j == k {
      assert OwnDrop(guess, combo, j) == {};
    }
    assert GreysIn(guess, combo, 0, k) + own + {guess[k]}
        == GreysIn(guess, combo, 0, k + 1) + (if j < k + 1 then OwnDrop(guess, combo, j) else {});
  }

  /** Every list is where k iterations without a raise leave it. */
  predicate ListsAt(guess: string, combo: Combo, init: seq<Letters>, lists: seq<Letters>, k: nat)
    requires k <= WordLength && Indexable(guess, combo, init)
  {
    |lists| == |init| && forall j :: 0 <= j < |init| ==> lists[j] == ListAfter(guess, combo, init, j, k)
  }

  /** One grey iteration moves every list from ListAfter(k) to ListAfter(k + 1). */
  lemma GreyStepLists(guess: string, combo: Combo, init: seq<Letters>, lists: seq<Letters>, k: nat)
    requires k < WordLength && Indexable(guess, combo, init) && ListsNoDup(init) && IsGrey(combo[k])
    requires ListsAt(guess, combo, init, lists, k)
    ensures ListsAt(guess, combo, init, RemoveEverywhere(lists, guess[k]), k + 1)
  {
    var x := guess[k];
    forall j | 0 <= j < |init|
      ensures RemoveEverywhere(lists, x)[j] == ListAfter(guess, combo, init, j, k + 1)
    {
      GreyStepAt(guess, combo, init, lists[j], k, j);
    }
  }

  /** The grey branch's update of one list, from ListAfter(k) to ListAfter(k + 1). */
  lemma GreyStepAt(guess: string, combo: Combo, init: seq<Letters>, list: Letters, k: nat, j: nat)
    requires k < WordLength && Indexable(guess, combo, init) && ListsNoDup(init) && IsGrey(combo[k])
    requires j < |init| && list == ListAfter(guess, combo, init, j, k)
    ensures (if j < WordLength && guess[k] in list then RemoveFirst(list, guess[k]) else list)
         == ListAfter(guess, combo, init, j, k + 1)
  {
    if j < WordLength {
      ListAfterNoDup(guess, combo, init, j, k);
      GreyRemoval(list, guess[k]);
      GreyStepKeep(guess, combo, init, k, j);
    }
  }

  /** Dropping the grey letter of position k moves list j from ListAfter(k) to ListAfter(k + 1). */
  lemma GreyStepKeep(guess: string, combo: Combo, init: seq<Letters>, k: nat, j: nat)
    requires k < WordLength && Indexable(guess, combo, init) && IsGrey(combo[k])
    requires j < |init| && j < WordLength
    ensures Keep(ListAfter(guess, combo, init, j, k), {guess[k]}) == ListAfter(guess, combo, init, j, k + 1)
  {
    if j < k && IsGreen(combo[j]) {
      GreyStepGreen(guess, combo, init, k, j);
    } else {
      GreyStepOther(guess, combo, init, k, j);
    }
  }

  /** One green or yellow iteration moves every list from ListAfter(k) to ListAfter(k + 1). */
  lemma NonGreyStepLists(guess: string, combo: Combo, init: seq<Letters>, lists: seq<Letters>, k: nat)
    requires k < WordLength && Indexable(guess, combo, init) && ListsNoDup(init) && !IsGrey(combo[k])
    requires ListsAt(guess, combo, init, lists, k)
    requires IsYellow(combo[k]) ==> guess[k] in lists[k]
    ensures ListsAt(guess, combo, init, Step(guess, combo, Scan(lists, [], {}, {}, false), k).lists, k + 1)
  {
    var s := Step(guess, combo, Scan(lists, [], {}, {}, false), k).lists;
    GreysInStep(guess, combo, 0, k);
    forall j | 0 <= j < |init|
      ensures s[j] == ListAfter(guess, combo, init, j, k + 1)
    {
      if j == k {
        if IsGreen(combo[k]) {
          assert GreysIn(guess, combo, k + 1, k + 1) == {};
          KeepAbsent([guess[k]], {});
        } else {
          ListAfterNoDup(guess, combo, init, k, k);
          assert GreysIn(guess, combo, 0, k) + {} == GreysIn(guess, combo, 0, k);
          assert lists[k] == Keep(init[k], GreysIn(guess, combo, 0, k));
          RemoveFirstIsKeep(lists[k], guess[k]);
          KeepKeep(init[k], GreysIn(guess, combo, 0, k), {guess[k]});
          assert GreysIn(guess, combo, 0, k + 1) + OwnDrop(guess, combo, k) == GreysIn(guess, combo, 0, k) + {guess[k]};
        }
      } else if j < k && IsGreen(combo[j]) {
        GreysInStep(guess, combo, j + 1, k);
        assert GreysIn(guess, combo, j + 1, k + 1) == GreysIn(guess, combo, j + 1, k);
      } else {
        assert GreysIn(guess, combo, 0, k + 1) == GreysIn(guess, combo, 0, k);
      }
    }
  }

  /** Whether `remove` raised within the first k iterations, and the lists if not. */
  lemma {:induction false} ScanLists(guess: string, combo: Combo, init: seq<Letters>, k: nat)
    requires k <= WordLength && Indexable(guess, combo, init) && ListsNoDup(init)
    ensures var s := ScanPrefix(guess, combo, init, k);
      && (s.stuck <==> exists t :: 0 <= t < k && YellowMissing(guess, combo, init, t))
      && (!s.stuck ==> ListsAt(guess, combo, init, s.lists, k))
  {
    if k == 0 {
      forall j | 0 <= j < |init| ensures init[j] == ListAfter(guess, combo, init, j, 0) {
        if j < WordLength {
          assert GreysIn(guess, combo, 0, 0) + {} == {};
          KeepAbsent(init[j], {});
        }
      }
    } else {
      ScanLists(guess, combo, init, k - 1);
      var p := ScanPrefix(guess, combo, init, k - 1);
      if !p.stuck {
        var i := k - 1;
        if IsGrey(combo[i]) {
          GreyStepLists(guess, combo, init, p.lists, i);
        } else if IsYellow(combo[i]) && guess[i] !in p.lists[i] {
          assert YellowMissing(guess, combo, init, i);
        } else {
          NonGreyStepLists(guess, combo, init, p.lists, i);
          assert Step(guess, combo, p, i).lists == Step(guess, combo, Scan(p.lists, [], {}, {}, false), i).lists;
          if IsYellow(combo[i]) {
            assert !YellowMissing(guess, combo, init, i);
          }
        }
      }
    }
  }

  /** The derivation computes exactly the reference outcome. */
  lemma BuildRegexMatchesDerived(guess: string, combo: Combo, init: seq<Letters>)
    requires Indexable(guess, combo, init) && ListsNoDup(init)
    ensures BuildRegexSpec(guess, combo, init) == Derived(guess, combo, init)
    ensures BuildRegexSpec(guess, combo, init).Success? ==>
      forall j :: 0 <= j < |init| ==>
        LettersAfter(guess, combo, init)[j] == if j < WordLength then AllowedAt(guess, combo, init, j) else init[j]
  {
    var s := ScanPrefix(guess, combo, init, WordLength);
    ScanLists(guess, combo, init, WordLength);
    ScanSets(guess, combo, init, WordLength);
    var greys := GreysIn(guess, combo, 0, WordLength);
    var nongreys := NonGreysIn(guess, combo, WordLength);
    if !s.stuck && greys * nongreys == {} {
      forall j | 0 <= j < WordLength ensures s.lists[j] == AllowedAt(guess, combo, init, j) {
        if IsGreen(combo[j]) {
          assert guess[j] in nongreys;
          assert GreysIn(guess, combo, j + 1, WordLength) <= greys;
          KeepAbsent([guess[j]], GreysIn(guess, combo, j + 1, WordLength));
        }
      }
      assert s.lists[..WordLength] == seq(WordLength, i requires 0 <= i < WordLength => AllowedAt(guess, combo, init, i));
    }
  }

  // ---------------------------------------------------------------------------
  // Consequences
  // ---------------------------------------------------------------------------

  /** On success each green position is exactly the guessed letter, every other
      position is its input list (in order) minus the grey letters and, if yellow,
      minus the guessed letter; the yellow letters come in position order. */
  lemma BuildRegexSuccessShape(guess: string, combo: Combo, init: seq<Letters>)
    requires Indexable(guess, combo, init) && ListsNoDup(init)
    requires BuildRegexSpec(guess, combo, init).Success?
    ensures var c := BuildRegexSpec(guess, combo, init).value;
      && |c.classes| == WordLength
      && (forall i :: 0 <= i < WordLength && IsGreen(combo[i]) ==> c.classes[i] == [guess[i]])
      && (forall i :: 0 <= i < WordLength && IsYellow(combo[i]) ==>
            c.classes[i] == Keep(init[i], GreysIn(guess, combo, 0, WordLength) + {guess[i]}))
      && (forall i :: 0 <= i < WordLength && IsGrey(combo[i]) ==>
            c.classes[i] == Keep(init[i], GreysIn(guess, combo, 0, WordLength)))
      && c.yellowLetters == YellowsIn(guess, combo, WordLength)
  {
    BuildRegexMatchesDerived(guess, combo, init);
    var c := BuildRegexSpec(guess, combo, init).value;
    forall i | 0 <= i < WordLength && IsGrey(combo[i])
      ensures c.classes[i] == Keep(init[i], GreysIn(guess, combo, 0, WordLength))
    {
      assert GreysIn(guess, combo, 0, WordLength) + OwnDrop(guess, combo, i) == GreysIn(guess, combo, 0, WordLength);
    }
  }

  /** The letters a yellow mark requires are exactly the yellow-marked ones, in order. */
  lemma {:induction false} YellowsInIsYellowMarks(guess: string, combo: Combo, k: nat)
    requires k <= WordLength && |guess| >= WordLength && |combo| >= WordLength
    ensures |YellowsIn(guess, combo, k)| <= k
    ensures forall x :: x in YellowsIn(guess, combo, k) <==>
      exists i :: 0 <= i < k && IsYellow(combo[i]) && guess[i] == x
  {
    if k > 0 {
      YellowsInIsYellowMarks(guess, combo, k - 1);
    }
  }

  /** `build_regex` succeeds exactly when every yellow letter is in its own position's
      list, no letter is both grey and non-grey, and no position runs out of letters. */
  lemma BuildRegexSucceedsIff(guess: string, combo: Combo, init: seq<Letters>)
    requires Indexable(guess, combo, init) && ListsNoDup(init)
    ensures BuildRegexSpec(guess, combo, init).Success? <==>
      && (forall t :: 0 <= t < WordLength && IsYellow(combo[t]) ==> guess[t] in init[t])
      && GreysIn(guess, combo, 0, WordLength) * NonGreysIn(guess, combo, WordLength) == {}
      && (forall i :: 0 <= i < WordLength ==> AllowedAt(guess, combo, init, i) != [])
  {
    BuildRegexMatchesDerived(guess, combo, init);
    var greys := GreysIn(guess, combo, 0, WordLength);
    var nongreys := NonGreysIn(guess, combo, WordLength);
    if greys * nongreys == {} {
      forall t | 0 <= t < WordLength && IsYellow(combo[t])
        ensures !YellowMissing(guess, combo, init, t) <==> guess[t] in init[t]
      {
        assert guess[t] in nongreys;
        forall i | 0 <= i < t && IsGrey(combo[i]) ensures guess[i] != guess[t] {
          assert guess[i] in greys;
          assert guess[i] !in greys * nongreys;
        }
      }
    }
  }

  /** A letter marked grey and also green or yellow in one guess always raises. */
  lemma BuildRegexRejectsGreyAndNonGrey(guess: string, combo: Combo, init: seq<Letters>, i: nat, j: nat)
    requires Indexable(guess, combo, init)
    requires i < WordLength && j < WordLength
    requires IsGrey(combo[i]) && !IsGrey(combo[j]) && guess[i] == guess[j]
    ensures BuildRegexSpec(guess, combo, init).Failure?
  {
    ScanSets(guess, combo, init, WordLength);
    var s := ScanPrefix(guess, combo, init, WordLength);
    if !s.stuck {
      assert guess[i] in GreysIn(guess, combo, 0, WordLength);
      assert guess[j] in NonGreysIn(guess, combo, WordLength);
      assert guess[i] in s.greys * s.nongreys;
    }
  }

  /** A repeated letter greyed out before it is marked yellow makes `list.remove` raise. */
  lemma GreyThenYellowRaisesInRemove(guess: string, combo: Combo, init: seq<Letters>, i: nat, j: nat)
    requires Indexable(guess, combo, init) && ListsNoDup(init)
    requires i < j < WordLength
    requires IsGrey(combo[i]) && IsYellow(combo[j]) && guess[i] == guess[j]
    ensures BuildRegexSpec(guess, combo, init) == Failure(LetterNotInList)
  {
    BuildRegexMatchesDerived(guess, combo, init);
    assert guess[j] in GreysIn(guess, combo, 0, j);
    assert YellowMissing(guess, combo, init, j);
  }

  /** A position whose allowed letters run out makes `build_regex` raise. */
  lemma BuildRegexRejectsEmptyPosition(guess: string, combo: Combo, init: seq<Letters>, i: nat)
    requires Indexable(guess, combo, init) && ListsNoDup(init)
    requires i < WordLength && AllowedAt(guess, combo, init, i) == []
    ensures BuildRegexSpec(guess, combo, init).Failure?
  {
    BuildRegexMatchesDerived(guess, combo, init);
  }

  /** When every yellow letter can be removed and no letter is both grey and non-grey,
      an emptied position raises the out-of-letters error of the compile loop. */
  lemma BuildRegexOutOfLetters(guess: string, combo: Combo, init: seq<Letters>, i: nat)
    requires Indexable(guess, combo, init) && ListsNoDup(init)
    requires forall t :: 0 <= t < WordLength ==> !YellowMissing(guess, combo, init, t)
    requires GreysIn(guess, combo, 0, WordLength) * NonGreysIn(guess, combo, WordLength) == {}
    requires i < WordLength && AllowedAt(guess, combo, init, i) == []
    ensures BuildRegexSpec(guess, combo, init) == Failure(OutOfLetters)
  {
    BuildRegexMatchesDerived(guess, combo, init);
  }

  /** Every non-green position only loses letters: it is an ordered selection of its input. */
  lemma {:induction false} KeepShrinks(s: Letters, drop: set<char>)
    ensures |Keep(s, drop)| <= |s|
  {
    if s != [] {
      KeepShrinks(s[1..], drop);
    }
  }

  predicate AllGreen(combo: Combo) {
    forall i :: 0 <= i < WordLength && i < |combo| ==> IsGreen(combo[i])
  }

  lemma {:induction false} AllGreenScan(guess: string, combo: Combo, init: seq<Letters>, k: nat)
    requires k <= WordLength && Indexable(guess, combo, init) && AllGreen(combo)
    ensures var s := ScanPrefix(guess, combo, init, k);
      && !s.stuck && s.greys == {} && s.yellows == []
      && s.lists == seq(|init|, j requires 0 <= j < |init| => if j < k then [guess[j]] else init[j])
  {
    if k > 0 {
      AllGreenScan(guess, combo, init, k - 1);
    }
  }

  /** With the all-green pattern every position is overwritten by the guessed letter,
      whatever the input lists held, and `build_regex` succeeds. */
  lemma AllGreenOverwrites(guess: string, combo: Combo, init: seq<Letters>)
    requires Indexable(guess, combo, init) && AllGreen(combo)
    ensures BuildRegexSpec(guess, combo, init)
         == Success(Compiled(seq(WordLength, i requires 0 <= i < WordLength => [guess[i]]), []))
  {
    AllGreenScan(guess, combo, init, WordLength);
    var s := ScanPrefix(guess, combo, init, WordLength);
    assert s.lists[..WordLength] == seq(WordLength, i requires 0 <= i < WordLength => [guess[i]]);
    assert forall i :: 0 <= i < WordLength ==> |s.lists[i]| == 1;
  }

  /** `ABC`: the lowercase alphabet at each of the five positions. */
  const Alphabet: Letters := "abcdefghijklmnopqrstuvwxyz"

  function FullLetters(): (r: seq<Letters>)
    ensures |r| == WordLength
  {
    [Alphabet, Alphabet, Alphabet, Alphabet, Alphabet]
  }

  /** Strictly increasing, as `string.ascii_lowercase` and every list drawn from it are. */
  predicate Increasing(s: Letters) {
    forall i, j :: 0 <= i < j < |s| ==> s[i] < s[j]
  }

  lemma {:induction false} IncreasingFromNeighbours(s: Letters)
    requires forall i :: 0 <= i < |s| - 1 ==> s[i] < s[i + 1]
    ensures Increasing(s)
  {
    if |s| > 1 {
      IncreasingFromNeighbours(s[1..]);
      assert forall j :: 1 <= j < |s| ==> s[0] < s[j] by {
        forall j | 1 <= j < |s| ensures s[0] < s[j] {
          assert s[1..][j - 1] == s[j];
          if j > 1 {
            assert s[1..][0] < s[1..][j - 1];
          }
        }
      }
    }
  }

  lemma {:induction false} KeepIncreasing(s: Letters, drop: set<char>)
    requires Increasing(s)
    ensures Increasing(Keep(s, drop))
  {
    if s != [] {
      assert Increasing(s[1..]);
      KeepIncreasing(s[1..], drop);
      var t := Keep(s[1..], drop);
      assert forall x :: x in t ==> s[0] < x by {
        forall x | x in t ensures s[0] < x {
          var m :| 0 <= m < |s[1..]| && s[1..][m] == x;
          assert s[m + 1] == x;
        }
      }
      if s[0] !in drop {
        assert Keep(s, drop) == [s[0]] + t;
        forall i, j | 0 <= i < j < |[s[0]] + t| ensures ([s[0]] + t)[i] < ([s[0]] + t)[j] {
          if i == 0 {
            assert ([s[0]] + t)[j] == t[j - 1];
            assert t[j - 1] in t;
          } else {
            assert ([s[0]] + t)[i] == t[i - 1] && ([s[0]] + t)[j] == t[j - 1];
          }
        }
      }
    }
  }

  /** An increasing list is determined by its set of letters. */
  lemma {:induction false} IncreasingUnique(s: Letters, t: Letters)
    requires Increasing(s) && Increasing(t)
    requires forall x :: x in s <==> x in t
    ensures s == t
  {
    if s != [] && t != [] {
      assert s[0] in t && t[0] in s;
      var m :| 0 <= m < |t| && t[m] == s[0];
      var n :| 0 <= n < |s| && s[n] == t[0];
      assert s[0] <= s[n] && t[0] <= t[m];
      assert s[0] == t[0];
      forall x ensures x in s[1..] <==> x in t[1..] {
        if x in s[1..] {
          var i :| 0 <= i < |s[1..]| && s[1..][i] == x;
          assert s[i + 1] == x && s[0] < x;
        }
        if x in t[1..] {
          var i :| 0 <= i < |t[1..]| && t[1..][i] == x;
          assert t[i + 1] == x && t[0] < x;
        }
        assert x in s && x != s[0] ==> x in s[1..] by {
          if x in s && x != s[0] {
            var i :| 0 <= i < |s| && s[i] == x;
            assert s[1..][i - 1] == x;
          }
        }
        assert x in t && x != t[0] ==> x in t[1..] by {
          if x in t && x != t[0] {
            var i :| 0 <= i < |t| && t[i] == x;
            assert t[1..][i - 1] == x;
          }
        }
      }
      IncreasingUnique(s[1..], t[1..]);
    } else if s != [] {
      HeadIsIn(s);
      assert false;
    } else if t != [] {
      HeadIsIn(t);
      assert false;
    }
  }

  lemma HeadIsIn(s: Letters)
    requires s != []
    ensures s[0] in s
  {
  }

  /** The 26 lowercase letters in order, stated letter by letter. */
  predicate IsAlphabet(a: Letters) {
    |a| == 26 && forall i :: 0 <= i < 26 ==> a[i] as int == 'a' as int + i
  }

  lemma AlphabetIsAlphabet()
    ensures IsAlphabet(Alphabet)
  {
  }

  lemma AlphabetFacts(a: Letters)
    requires IsAlphabet(a)
    ensures Increasing(a) && NoDup(a)
    ensures forall x :: x in a <==> 'a' <= x <= 'z'
  {
    forall x | 'a' <= x <= 'z' ensures x in a {
      assert a[x as int - 'a' as int] == x;
    }
  }

  /** A position built by dropping letters from the alphabet equals the literal class
      whose letters are the same. */
  lemma ClassIs(a: Letters, drop: set<char>, lit: Letters)
    requires IsAlphabet(a)
    requires forall i :: 0 <= i < |lit| - 1 ==> lit[i] < lit[i + 1]
    requires forall x :: x in lit <==> 'a' <= x <= 'z' && x !in drop
    ensures Keep(a, drop) == lit
  {
    AlphabetFacts(a);
    KeepIncreasing(a, drop);
    IncreasingFromNeighbours(lit);
    IncreasingUnique(Keep(a, drop), lit);
  }

  lemma HelioMarks()
    ensures GreysIn("helio", [1, 2, 2, 0, 1], 0, WordLength) == {'e', 'l'}
    ensures NonGreysIn("helio", [1, 2, 2, 0, 1], WordLength) == {'h', 'i', 'o'}
    ensures YellowsIn("helio", [1, 2, 2, 0, 1], WordLength) == "ho"
  {
    var guess, combo := "helio", [1, 2, 2, 0, 1];
    assert guess[1] in GreysIn(guess, combo, 0, WordLength);
    assert guess[2] in GreysIn(guess, combo, 0, WordLength);
    assert guess[0] in NonGreysIn(guess, combo, WordLength);
    assert guess[3] in NonGreysIn(guess, combo, WordLength);
    assert guess[4] in NonGreysIn(guess, combo, WordLength);
  }

  lemma HelioRemovable(a: Letters)
    requires IsAlphabet(a)
    ensures forall t :: 0 <= t < WordLength ==> !YellowMissing("helio", [1, 2, 2, 0, 1], [a, a, a, a, a], t)
  {
    AlphabetFacts(a);
    var guess, combo, init := "helio", [1, 2, 2, 0, 1], [a, a, a, a, a];
    assert GreysIn(guess, combo, 0, 0) == {};
    assert GreysIn(guess, combo, 0, 4) <= {'e', 'l'};
    assert 'h' in a && 'o' in a;
  }

  /** The letters each non-green position of the "helio" test loses. */
  lemma HelioDrops()
    ensures GreysIn("helio", [1, 2, 2, 0, 1], 0, WordLength) + OwnDrop("helio", [1, 2, 2, 0, 1], 0) == {'e', 'h', 'l'}
    ensures GreysIn("helio", [1, 2, 2, 0, 1], 0, WordLength) + OwnDrop("helio", [1, 2, 2, 0, 1], 1) == {'e', 'l'}
    ensures GreysIn("helio", [1, 2, 2, 0, 1], 0, WordLength) + OwnDrop("helio", [1, 2, 2, 0, 1], 2) == {'e', 'l'}
    ensures GreysIn("helio", [1, 2, 2, 0, 1], 0, WordLength) + OwnDrop("helio", [1, 2, 2, 0, 1], 4) == {'e', 'l', 'o'}
  {
    HelioMarks();
  }

  /** The expected class at position 0, in alphabetical order, without e, h and l. */
  lemma ClassWithoutEHL()
    ensures var lit := "abcdfgijkmnopqrstuvwxyz";
      && (forall k :: 0 <= k < |lit| - 1 ==> lit[k] < lit[k + 1])
      && (forall x :: x in lit <==> 'a' <= x <= 'z' && x !in {'e', 'h', 'l'})
  {
  }

  /** The expected class at positions 1 and 2, without e and l. */
  lemma ClassWithoutEL()
    ensures var lit := "abcdfghijkmnopqrstuvwxyz";
      && (forall k :: 0 <= k < |lit| - 1 ==> lit[k] < lit[k + 1])
      && (forall x :: x in lit <==> 'a' <= x <= 'z' && x !in {'e', 'l'})
  {
  }

  /** The expected class at position 4, without e, l and o. */
  lemma ClassWithoutELO()
    ensures var lit := "abcdfghijkmnpqrstuvwxyz";
      && (forall k :: 0 <= k < |lit| - 1 ==> lit[k] < lit[k + 1])
      && (forall x :: x in lit <==> 'a' <= x <= 'z' && x !in {'e', 'l', 'o'})
  {
  }

  lemma HelioAllowedAt0(a: Letters)
    requires IsAlphabet(a)
    ensures AllowedAt("helio", [1, 2, 2, 0, 1], [a, a, a, a, a], 0) == "abcdfgijkmnopqrstuvwxyz"
  {
    HelioDrops();
    ClassWithoutEHL();
    ClassIs(a, {'e', 'h', 'l'}, "abcdfgijkmnopqrstuvwxyz");
  }

  lemma HelioAllowedAt1(a: Letters)
    requires IsAlphabet(a)
    ensures AllowedAt("helio", [1, 2, 2, 0, 1], [a, a, a, a, a], 1) == "abcdfghijkmnopqrstuvwxyz"
  {
    HelioDrops();
    ClassWithoutEL();
    ClassIs(a, {'e', 'l'}, "abcdfghijkmnopqrstuvwxyz");
  }

  lemma HelioAllowedAt2(a: Letters)
    requires IsAlphabet(a)
    ensures AllowedAt("helio", [1, 2, 2, 0, 1], [a, a, a, a, a], 2) == "abcdfghijkmnopqrstuvwxyz"
  {
    HelioDrops();
    ClassWithoutEL();
    ClassIs(a, {'e', 'l'}, "abcdfghijkmnopqrstuvwxyz");
  }

  lemma HelioAllowedAt4(a: Letters)
    requires IsAlphabet(a)
    ensures AllowedAt("helio", [1, 2, 2, 0, 1], [a, a, a, a, a], 4) == "abcdfghijkmnpqrstuvwxyz"
  {
    HelioDrops();
    ClassWithoutELO();
    ClassIs(a, {'e', 'l', 'o'}, "abcdfghijkmnpqrstuvwxyz");
  }

  lemma HelioAllowed(a: Letters)
    requires IsAlphabet(a)
    ensures seq(WordLength, i requires 0 <= i < WordLength => AllowedAt("helio", [1, 2, 2, 0, 1], [a, a, a, a, a], i))
         == ["abcdfgijkmnopqrstuvwxyz", "abcdfghijkmnopqrstuvwxyz", "abcdfghijkmnopqrstuvwxyz",
             "i", "abcdfghijkmnpqrstuvwxyz"]
  {
    var expected: seq<Letters> := ["abcdfgijkmnopqrstuvwxyz", "abcdfghijkmnopqrstuvwxyz", "abcdfghijkmnopqrstuvwxyz",
             "i", "abcdfghijkmnpqrstuvwxyz"];
    HelioAllowedAt0(a);
    HelioAllowedAt1(a);
    HelioAllowedAt2(a);
    HelioAllowedAt3(a);
    HelioAllowedAt4(a);
    AllowedListsAre("helio", [1, 2, 2, 0, 1], [a, a, a, a, a], expected);
  }

  lemma HelioAllowedAt3(a: Letters)
    ensures AllowedAt("helio", [1, 2, 2, 0, 1], [a, a, a, a, a], 3) == "i"
  {
  }

  /** The five allowed lists, given one by one. */
  lemma AllowedListsAre(guess: string, combo: Combo, init: seq<Letters>, expected: seq<Letters>)
    requires Indexable(guess, combo, init) && |expected| == WordLength
    requires AllowedAt(guess, combo, init, 0) == expected[0]
    requires AllowedAt(guess, combo, init, 1) == expected[1]
    requires AllowedAt(guess, combo, init, 2) == expected[2]
    requires AllowedAt(guess, combo, init, 3) == expected[3]
    requires AllowedAt(guess, combo, init, 4) == expected[4]
    ensures seq(WordLength, i requires 0 <= i < WordLength => AllowedAt(guess, combo, init, i)) == expected
  {
  }

  /** The unit test on "helio" with pattern [1, 2, 2, 0, 1] over `ABC`: the five
      character classes of the expected expression, and yellow letters "h", "o". */
  lemma HelioExample(a: Letters)
    requires IsAlphabet(a)
    ensures BuildRegexSpec("helio", [1, 2, 2, 0, 1], [a, a, a, a, a])
         == Success(Compiled(["abcdfgijkmnopqrstuvwxyz", "abcdfghijkmnopqrstuvwxyz", "abcdfghijkmnopqrstuvwxyz",
                              "i", "abcdfghijkmnpqrstuvwxyz"], "ho"))
  {
    var guess, combo, init := "helio", [1, 2, 2, 0, 1], [a, a, a, a, a];
    var expected: seq<Letters> := ["abcdfgijkmnopqrstuvwxyz", "abcdfghijkmnopqrstuvwxyz", "abcdfghijkmnopqrstuvwxyz",
                                   "i", "abcdfghijkmnpqrstuvwxyz"];
    var allowed := seq(WordLength, i requires 0 <= i < WordLength => AllowedAt(guess, combo, init, i));
    HelioAllowed(a);
    assert !exists t :: 0 <= t < WordLength && YellowMissing(guess, combo, init, t) by {
      HelioRemovable(a);
    }
    HelioMarks();
    assert {'e', 'l'} * {'h', 'i', 'o'} == {};
    assert forall i :: 0 <= i < WordLength ==> AllowedAt(guess, combo, init, i) != [] by {
      forall i | 0 <= i < WordLength
        ensures AllowedAt(guess, combo, init, i) != []
      {
        assert AllowedAt(guess, combo, init, i) == allowed[i] == expected[i];
      }
    }
    assert Derived(guess, combo, init) == Success(Compiled(expected, "ho"));
    AlphabetFacts(a);
    BuildRegexMatchesDerived(guess, combo, init);
  }

  /** The test on `build_regex("helio", [1, 2, 2, 0, 1], copy.deepcopy(ABC))`, on `ABC` itself. */
  lemma HelioExampleOnABC()
    ensures BuildRegexSpec("helio", [1, 2, 2, 0, 1], FullLetters())
         == Success(Compiled(["abcdfgijkmnopqrstuvwxyz", "abcdfghijkmnopqrstuvwxyz", "abcdfghijkmnopqrstuvwxyz",
                              "i", "abcdfghijkmnpqrstuvwxyz"], "ho"))
  {
    AlphabetIsAlphabet();
    HelioExample(Alphabet);
  }
}
