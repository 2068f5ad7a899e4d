/**
  The alphabet of feedback colours and the fixed list of every colour pattern
  for a five-letter guess (`COLORS`, `NUM_COMBOS` and `COLOR_COMBOS`).
 */
module Patterns {

  /** Number of letters in a word (`NUM_CHARACTERS`). */
  const WordLength: nat := 5

  /** The colour codes, as the values of the `COLORS` dictionary. */
  const Green: int := 0
  const Yellow: int := 1
  const Grey: int := 2

  /** The values of `COLORS` in the dictionary's iteration order. */
  const ColorValues: seq<int> := [Green, Yellow, Grey]

  /** `pow(len(COLORS), NUM_CHARACTERS)`. */
  const NumCombos: nat := 243

  /** A colour pattern: one colour code per letter position. */
  type Combo = seq<int>

  predicate IsColor(v: int) {
    v == Green || v == Yellow || v == Grey
  }

  /** A complete pattern: exactly one colour code per position. */
  predicate IsCombo(p: Combo) {
    |p| == WordLength && forall i :: 0 <= i < |p| ==> IsColor(p[i])
  }

  /** The five base-3 digits of k, most significant first. */
  function Digits(k: int): (p: Combo)
    requires 0 <= k < NumCombos
    ensures IsCombo(p)
  {
    var k1 := k / 3;
    var k2 := k1 / 3;
    var k3 := k2 / 3;
    [k3 / 3, k3 % 3, k2 % 3, k1 % 3, k % 3]
  }

  /** The number whose base-3 digits are p. */
  function Value(p: Combo): int
    requires |p| == WordLength
  {
    81 * p[0] + 27 * p[1] + 9 * p[2] + 3 * p[3] + p[4]
  }

  /** The reference list: entry k is the base-3 expansion of k. */
  function AllCombos(): (ps: seq<Combo>)
    ensures |ps| == NumCombos
  {
    seq(NumCombos, k requires 0 <= k < NumCombos => Digits(k))
  }

  /** Strict lexicographic order on patterns of equal length. */
  predicate LexLess(p: Combo, q: Combo) {
    exists i :: 0 <= i < |p| && i < |q| && p[..i] == q[..i] && p[i] < q[i]
  }

  lemma DigitsValue(k: int)
    requires 0 <= k < NumCombos
    ensures Value(Digits(k)) == k
  {
  }

  /** Division by 3 has a unique quotient and remainder. */
  lemma Div3(x: int, q: int, r: int)
    requires x == 3 * q + r && 0 <= r < 3
    ensures x / 3 == q && x % 3 == r
  {
  }

  lemma ValueDigits(p: Combo)
    requires IsCombo(p)
    ensures 0 <= Value(p) < NumCombos && Digits(Value(p)) == p
  {
    assert IsColor(p[0]) && IsColor(p[1]) && IsColor(p[2]) && IsColor(p[3]) && IsColor(p[4]);
    var v := Value(p);
    var k1, k2, k3 := 27 * p[0] + 9 * p[1] + 3 * p[2] + p[3], 9 * p[0] + 3 * p[1] + p[2], 3 * p[0] + p[1];
    Div3(v, k1, p[4]);
    Div3(k1, k2, p[3]);
    Div3(k2, k3, p[2]);
    Div3(k3, p[0], p[1]);
    var q := Digits(v);
    assert q[0] == p[0] && q[1] == p[1] && q[2] == p[2] && q[3] == p[3] && q[4] == p[4];
  }

  /** The list built so far is the start of the reference list. */
  predicate DigitsPrefix(combos: seq<Combo>) {
    |combos| <= NumCombos && forall k :: 0 <= k < |combos| ==> combos[k] == Digits(k)
  }

  /** The pattern the nested loops append for the colour indices a, b, c, d, e is the
      next entry of the reference list. */
  lemma AppendNext(combos: seq<Combo>, a: int, b: int, c: int, d: int, e: int)
    requires 0 <= a < 3 && 0 <= b < 3 && 0 <= c < 3 && 0 <= d < 3 && 0 <= e < 3
    requires DigitsPrefix(combos) && |combos| == 81 * a + 27 * b + 9 * c + 3 * d + e
    ensures DigitsPrefix(combos + [[ColorValues[a], ColorValues[b], ColorValues[c], ColorValues[d], ColorValues[e]]])
  {
    var p := [ColorValues[a], ColorValues[b], ColorValues[c], ColorValues[d], ColorValues[e]];
    assert p == [a, b, c, d, e];
    ValueDigits(p);
    var next := combos + [p];
    forall k | 0 <= k < |next| ensures next[k] == Digits(k) {
      if k < |combos| {
        assert next[k] == combos[k];
      } else {
        assert Value(p) == k;
      }
    }
  }

  /** The five nested loops that append to `COLOR_COMBOS`. */
  method ColorCombos() returns (combos: seq<Combo>)
    ensures combos == AllCombos()
  {
    combos := [];
    for a := 0 to 3
      invariant |combos| == 81 * a && DigitsPrefix(combos)
    {
      for b := 0 to 3
        invariant |combos| == 81 * a + 27 * b && DigitsPrefix(combos)
      {
        for c := 0 to 3
          invariant |combos| == 81 * a + 27 * b + 9 * c && DigitsPrefix(combos)
        {
          for d := 0 to 3
            invariant |combos| == 81 * a + 27 * b + 9 * c + 3 * d && DigitsPrefix(combos)
          {
            for e := 0 to 3
              invariant |combos| == 81 * a + 27 * b + 9 * c + 3 * d + e && DigitsPrefix(combos)
            {
              AppendNext(combos, a, b, c, d, e);
              combos := combos + [[ColorValues[a], ColorValues[b], ColorValues[c], ColorValues[d], ColorValues[e]]];
            }
          }
        }
      }
    }
  }

  /** There are 3^5 patterns, each a length-5 sequence over the three colours. */
  lemma CombosWellFormed()
    ensures |AllCombos()| == 243
    ensures forall k :: 0 <= k < |AllCombos()| ==> IsCombo(AllCombos()[k])
  {
  }

  /** No pattern is listed twice. */
  lemma CombosDistinct(j: int, k: int)
    requires 0 <= j < k < NumCombos
    ensures AllCombos()[j] != AllCombos()[k]
  {
    DigitsValue(j);
    DigitsValue(k);
  }

  /** Every pattern occurs, at the index its base-3 value names. */
  lemma CombosComplete(p: Combo)
    requires IsCombo(p)
    ensures 0 <= Value(p) < NumCombos && AllCombos()[Value(p)] == p
  {
    ValueDigits(p);
  }

  /** The list is in strictly increasing lexicographic order. */
  lemma CombosOrdered(j: int, k: int)
    requires 0 <= j < k < NumCombos
    ensures LexLess(AllCombos()[j], AllCombos()[k])
  {
    var p, q := Digits(j), Digits(k);
    assert AllCombos()[j] == p && AllCombos()[k] == q;
    DigitsValue(j);
    DigitsValue(k);
    var i := if p[0] != q[0] then 0
             else if p[1] != q[1] then 1
             else if p[2] != q[2] then 2
             else if p[3] != q[3] then 3
             else 4;
    assert p[..i] == q[..i];
    assert p[i] < q[i];
  }
}
