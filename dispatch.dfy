/**
  The driver (`calculate_scores`): cut the word list into one contiguous slice
  per worker process, let every worker score its slice, and merge what the
  workers write into the shared dictionary.
 */
module Dispatch {
  import opened Patterns
  import opened Constraints
  import opened Filter
  import opened Scoring

  function Min(a: int, b: int): int {
    if a <= b then a else b
  }

  /** Python's `s[a:b]` for non-negative bounds: clipped to the list, empty when b <= a. */
  function Slice<T>(s: seq<T>, a: nat, b: nat): seq<T> {
    if a >= |s| || b <= a then [] else s[a..Min(b, |s|)]
  }

  /** `math.ceil(n / p)`, on integers. */
  function CeilDiv(n: nat, p: nat): nat
    requires p > 0
  {
    (n + p - 1) / p
  }

  /** The slice worker i should get when each takes c consecutive words. */
  function Chunk<T>(s: seq<T>, c: nat, i: nat): seq<T> {
    Slice(s, i * c, i * c + c)
  }

  /** The slices of `words_each_process_is_responsible_for`, worker by worker. */
  function Chunks<T>(s: seq<T>, processes: nat): (r: seq<seq<T>>)
    requires processes > 0
    ensures |r| == processes
  {
    seq(processes, i requires 0 <= i < processes => Chunk(s, CeilDiv(|s|, processes), i))
  }

  /** The slices laid end to end. */
  function Concat<T>(ss: seq<seq<T>>): seq<T> {
    if ss == [] then [] else Concat(ss[..|ss| - 1]) + ss[|ss| - 1]
  }

  /** Where the chunking loop stands before iteration i: while full slices still
      fit, `start` is i * c and `numwords_per_process` is c; after line 136 has fired,
      `numwords_per_process` is the word count and `start` is either the start of the
      partial last slice or past the end. */
  predicate LoopState(n: nat, c: nat, i: nat, start: int, perProcess: int) {
    || (perProcess == c && start == i * c)
    || (perProcess == n && i * c + c > n && (start == i * c || (start >= n && i * c >= n)))
  }

  lemma MulSucc(i: nat, c: nat)
    ensures i * c >= 0 && (i + 1) * c == i * c + c
  {
  }

  lemma MulMono(i: nat, j: nat, c: nat)
    requires i < j
    ensures i * c + c <= j * c
  {
    MulSucc(i, c);
    MulAdd(i + 1, j - (i + 1), c);
  }

  lemma MulAdd(a: nat, b: nat, c: nat)
    ensures b * c >= 0 && (a + b) * c == a * c + b * c
  {
  }

  /** One iteration of the chunking loop cuts slice i and keeps the loop state. */
  lemma PartitionStep<T>(words: seq<T>, c: nat, i: nat, start: int, perProcess: int)
    requires LoopState(|words|, c, i, start, perProcess)
    ensures start >= 0 && perProcess >= 0
    ensures Slice(words, start, start + perProcess) == Chunk(words, c, i)
    ensures var start' := start + perProcess;
      LoopState(|words|, c, i + 1, start',
                if start' + perProcess > |words| then perProcess - (perProcess - |words|) else perProcess)
  {
    MulSucc(i, c);
  }

  /** The chunking loop, with its update of `numwords_per_process` written as in the source. */
  method PartitionWords<T>(words: seq<T>, processes: nat) returns (chunks: seq<seq<T>>)
    requires processes > 0
    ensures chunks == Chunks(words, processes)
  {
    var numwords := |words|;
    var c := CeilDiv(numwords, processes);
    chunks := [];
    var perProcess: int := c;
    var start: int := 0;
    for i := 0 to processes
      invariant |chunks| == i
      invariant forall k :: 0 <= k < i ==> chunks[k] == Chunk(words, c, k)
      invariant LoopState(numwords, c, i, start, perProcess)
    {
      PartitionStep(words, c, i, start, perProcess);
      chunks := chunks + [Slice(words, start, start + perProcess)];
      start := start + perProcess;
      if start + perProcess > numwords {
        perProcess := perProcess - (perProcess - numwords);
      }
    }
  }

  /** `calculate_scores`: the frequency total, and the merged scores of every word. */
  method CalculateScores(remainingWords: Dict, remaining: array<Letters>, processes: nat)
    returns (freqTotal: int, information: map<string, seq<int>>)
    requires processes > 0 && remaining.Length >= WordLength
    requires forall e :: e in remainingWords ==> |e.word| >= WordLength
    ensures freqTotal == FreqSum(remainingWords)
    ensures information.Keys == set g | g in Words(remainingWords)
    ensures forall g :: g in information ==> information[g] == GuessProfile(g, remainingWords, remaining[..])
  {
    freqTotal := FreqSum(remainingWords);
    var words := Words(remainingWords);
    WordsGuessable(remainingWords);
    var chunks := PartitionWords(words, processes);
    forall i | 0 <= i < |chunks| ensures Guessable(chunks[i]) {
      ChunkGuessable(words, processes, i);
    }
    information := RunWorkers(chunks, remainingWords, remaining);
    ConcatChunks(words, processes);
  }

  /** The pool: one `calculate_scores_` per slice, all writing into one shared dictionary.
      The workers run one after another here; each writes only the words of its slice. */
  method RunWorkers(chunks: seq<seq<string>>, remainingWords: Dict, remaining: array<Letters>)
    returns (information: map<string, seq<int>>)
    requires remaining.Length >= WordLength
    requires forall i :: 0 <= i < |chunks| ==> Guessable(chunks[i])
    ensures Scored(information, Concat(chunks), remainingWords, remaining[..])
  {
    information := map[];
    assert (set g | g in Concat(chunks[..0])) == {};
    for i := 0 to |chunks|
      invariant Scored(information, Concat(chunks[..i]), remainingWords, remaining[..])
    {
      ConcatStep(chunks, i);
      var part := CalculateScoresWorker(chunks[i], remainingWords, remaining);
      MergeScored(information, part, Concat(chunks[..i]), chunks[i], remainingWords, remaining[..]);
      information := information + part;
    }
    assert chunks[..|chunks|] == chunks;
  }

  /** Merging one worker's dictionary adds the words of its slice. */
  lemma MergeScored(information: map<string, seq<int>>, part: map<string, seq<int>>, ws: seq<string>,
                    chunk: seq<string>, d: Dict, init: seq<Letters>)
    requires |init| >= WordLength
    requires Scored(information, ws, d, init) && Scored(part, chunk, d, init)
    ensures Scored(information + part, ws + chunk, d, init)
  {
    MergeKeys(information, part, ws, chunk);
    MergeProfiles(information, part, d, init);
  }

  lemma MergeProfiles(information: map<string, seq<int>>, part: map<string, seq<int>>, d: Dict, init: seq<Letters>)
    requires |init| >= WordLength
    requires ProfilesOf(information, d, init) && ProfilesOf(part, d, init)
    ensures ProfilesOf(information + part, d, init)
  {
    var merged := information + part;
    forall g | g in merged ensures |g| >= WordLength && merged[g] == GuessProfile(g, d, init) {
      if g in part {
        assert merged[g] == part[g];
      } else {
        assert merged[g] == information[g];
      }
    }
  }

  lemma WordsGuessable(d: Dict)
    requires forall e :: e in d ==> |e.word| >= WordLength
    ensures Guessable(Words(d))
  {
    forall g | g in Words(d) ensures |g| >= WordLength {
      var i :| 0 <= i < |d| && Words(d)[i] == g;
      assert d[i] in d;
    }
  }

  /** Merging two dictionaries keyed by the words of two lists gives the words of both. */
  lemma MergeKeys<V>(a: map<string, V>, b: map<string, V>, xs: seq<string>, ys: seq<string>)
    requires a.Keys == (set g | g in xs) && b.Keys == (set g | g in ys)
    ensures (a + b).Keys == set g | g in xs + ys
  {
    assert forall g :: g in xs + ys <==> g in xs || g in ys;
  }

  lemma ChunkGuessable(words: seq<string>, processes: nat, i: nat)
    requires processes > 0 && i < processes && Guessable(words)
    ensures Guessable(Chunks(words, processes)[i])
  {
    ChunkWithin(words, CeilDiv(|words|, processes), i);
  }

  /** One more slice extends the concatenation by that slice. */
  lemma ConcatStep<T>(ss: seq<seq<T>>, i: nat)
    requires i < |ss|
    ensures Concat(ss[..i + 1]) == Concat(ss[..i]) + ss[i]
  {
    assert ss[..i + 1][..i] == ss[..i];
  }

  // ---------------------------------------------------------------------------
  // What the partition guarantees
  // ---------------------------------------------------------------------------

  /** Slice i is the contiguous run of at most c words starting at index i * c. */
  lemma ChunkWithin<T>(s: seq<T>, c: nat, i: nat)
    ensures |Chunk(s, c, i)| <= c
    ensures Chunk(s, c, i) == s[Min(i * c, |s|)..Min(i * c + c, |s|)]
    ensures forall x :: x in Chunk(s, c, i) ==> x in s
  {
  }

  /** p slices of `ceil(n / p)` words reach past the end of the list. */
  lemma CeilDivCovers(n: nat, p: nat)
    requires p > 0
    ensures p * CeilDiv(n, p) >= n
    ensures n > 0 ==> p * (CeilDiv(n, p) - 1) < n
  {
    var q, r := (n + p - 1) / p, (n + p - 1) % p;
    assert q * p + r == n + p - 1;
  }

  /** The first k slices, laid end to end, are the words before index k * c. */
  lemma {:induction false} ConcatPrefix<T>(s: seq<T>, c: nat, processes: nat, k: nat)
    requires processes > 0 && c == CeilDiv(|s|, processes) && k <= processes
    ensures Concat(Chunks(s, processes)[..k]) == s[..Min(k * c, |s|)]
  {
    var chunks := Chunks(s, processes);
    if k > 0 {
      ConcatPrefix(s, c, processes, k - 1);
      ChunkWithin(s, c, k - 1);
      MulSucc(k - 1, c);
      ConcatPrefixStep(s, chunks, k, (k - 1) * c, (k - 1) * c + c);
    }
  }

  /** If the first k - 1 slices are the words before a and slice k - 1 runs from a to b,
      the first k slices are the words before b. */
  lemma ConcatPrefixStep<T>(s: seq<T>, chunks: seq<seq<T>>, k: nat, a: nat, b: nat)
    requires 0 < k <= |chunks| && a <= b
    requires Concat(chunks[..k - 1]) == s[..Min(a, |s|)]
    requires chunks[k - 1] == s[Min(a, |s|)..Min(b, |s|)]
    ensures Concat(chunks[..k]) == s[..Min(b, |s|)]
  {
    ConcatStep(chunks, k - 1);
    assert s[..Min(a, |s|)] + s[Min(a, |s|)..Min(b, |s|)] == s[..Min(b, |s|)];
  }

  /** The slices laid end to end are exactly `list(remaining_words)`, in order. */
  lemma ConcatChunks<T>(s: seq<T>, processes: nat)
    requires processes > 0
    ensures Concat(Chunks(s, processes)) == s
  {
    var c := CeilDiv(|s|, processes);
    CeilDivCovers(|s|, processes);
    ConcatPrefix(s, c, processes, processes);
    assert Chunks(s, processes)[..processes] == Chunks(s, processes);
    assert processes * c == c * processes;
  }

  /** Each slice holds at most `ceil(n / p)` words. */
  lemma ChunksBounded<T>(s: seq<T>, processes: nat)
    requires processes > 0
    ensures forall i :: 0 <= i < processes ==> |Chunks(s, processes)[i]| <= CeilDiv(|s|, processes)
  {
    forall i | 0 <= i < processes ensures |Chunks(s, processes)[i]| <= CeilDiv(|s|, processes) {
      ChunkWithin(s, CeilDiv(|s|, processes), i);
    }
  }

  /** Different slices share no word when the words are distinct, as dictionary keys are. */
  lemma ChunksDisjoint<T>(s: seq<T>, processes: nat, i: nat, j: nat)
    requires processes > 0 && i < j < processes
    requires forall a, b :: 0 <= a < b < |s| ==> s[a] != s[b]
    ensures forall x :: x in Chunks(s, processes)[i] ==> x !in Chunks(s, processes)[j]
  {
    var c := CeilDiv(|s|, processes);
    ChunkWithin(s, c, i);
    ChunkWithin(s, c, j);
    var lo, hi := Min(i * c, |s|), Min(i * c + c, |s|);
    var lo', hi' := Min(j * c, |s|), Min(j * c + c, |s|);
    MulMono(i, j, c);
    forall x | x in Chunks(s, processes)[i] ensures x !in Chunks(s, processes)[j] {
      var a :| 0 <= a < hi - lo && s[lo..hi][a] == x;
      assert s[lo + a] == x;
    }
  }
}
