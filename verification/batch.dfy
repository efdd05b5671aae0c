/** Turning a batch of pairs into the index matrices the networks consume:
    time steps along the first dimension, one column per sentence. */
module Batch {
  import opened Text
  import opened Vocabulary
  import opened Pairs
  import opened Sorting

  /** A matrix as nested lists: a list of rows. */
  type Matrix<T> = seq<seq<T>>

  /** `indexesFromSentence`: the index of every space-separated word, then
      EOS. A word missing from the vocabulary raises `KeyError`, so every
      word must be known. */
  function IndexesFromSentence(v: Voc, s: string): (r: seq<int>)
    requires Known(v, s)
    ensures |r| == WordCount(s) + 1
    ensures r[|r| - 1] == EOS_TOKEN
    ensures forall k :: 0 <= k < |r| - 1 ==> Split(s)[k] in v.word2index && r[k] == v.word2index[Split(s)[k]]
    ensures Valid(v) ==> forall k :: 0 <= k < |r| ==> r[k] != PAD_TOKEN && 0 <= r[k] < v.numWords
  {
    var words := Split(s);
    seq(|words|, k requires 0 <= k < |words| => v.word2index[words[k]] as int) + [EOS_TOKEN as int]
  }

  /** The words `index2word` gives for a list of indices. */
  function WordsOf(v: Voc, idx: seq<int>): seq<string>
    requires forall k :: 0 <= k < |idx| ==> idx[k] >= 0 && idx[k] as nat in v.index2word
  {
    seq(|idx|, k requires 0 <= k < |idx| => v.index2word[idx[k] as nat])
  }

  /** Looking the indices up again and joining the words with single
      spaces gives back the sentence: no information is lost. */
  lemma IndexesRoundTrip(v: Voc, s: string)
    requires Valid(v) && Known(v, s)
    ensures var r := IndexesFromSentence(v, s);
      && (forall k :: 0 <= k < |r| - 1 ==> r[k] >= 0 && r[k] as nat in v.index2word)
      && Join(WordsOf(v, r[..|r| - 1])) == s
  {
    var r := IndexesFromSentence(v, s);
    var words := Split(s);
    assert forall k :: 0 <= k < |r| - 1 ==> r[k] as nat in v.index2word && v.index2word[r[k] as nat] == words[k];
    assert WordsOf(v, r[..|r| - 1]) == words;
    JoinSplit(s);
  }

  /** The length of the longest list, 0 when there is none. */
  function MaxLen<T>(l: seq<seq<T>>): (n: nat)
    ensures forall i :: 0 <= i < |l| ==> |l[i]| <= n
    ensures |l| == 0 ==> n == 0
    ensures |l| > 0 ==> exists i :: 0 <= i < |l| && |l[i]| == n
    decreases |l|
  {
    if |l| == 0 then 0
    else
      var m := MaxLen(l[..|l| - 1]);
      assert forall i :: 0 <= i < |l| - 1 ==> l[..|l| - 1][i] == l[i];
      if |l[|l| - 1]| > m then |l[|l| - 1]| else m
  }

  /** Every row has `width` entries. */
  predicate Rectangular<T>(m: Matrix<T>, width: nat) {
    forall t :: 0 <= t < |m| ==> |m[t]| == width
  }

  /** Column `i` of a rectangular matrix, read top to bottom. */
  function Column<T>(m: Matrix<T>, width: nat, i: nat): seq<T>
    requires Rectangular(m, width) && i < width
  {
    seq(|m|, t requires 0 <= t < |m| => m[t][i])
  }

  /** `n` copies of `x`. */
  function Repeat<T>(x: T, n: nat): (r: seq<T>)
    ensures |r| == n && forall k :: 0 <= k < n ==> r[k] == x
  {
    seq(n, _ => x)
  }

  /** `zeroPadding`, i.e. `itertools.zip_longest(*l, fillvalue=fill)`: the
      transpose of `l` with each list first padded with `fill` to the
      length of the longest. Column `i` of the result is `l[i]` padded, so
      its first `|l[i]|` entries give `l[i]` back. */
  method ZeroPadding(l: seq<seq<int>>, fill: int) returns (m: Matrix<int>)
    ensures |m| == MaxLen(l)
    ensures Rectangular(m, |l|)
    ensures forall i :: 0 <= i < |l| ==> Column(m, |l|, i) == l[i] + Repeat(fill, |m| - |l[i]|)
    ensures forall i :: 0 <= i < |l| ==> Column(m, |l|, i)[..|l[i]|] == l[i]
  {
    var height := MaxLen(l);
    m := [];
    var t := 0;
    while t < height
      invariant 0 <= t <= height && |m| == t
      invariant Rectangular(m, |l|)
      invariant forall s, i :: 0 <= s < t && 0 <= i < |l| ==>
        m[s][i] == if s < |l[i]| then l[i][s] else fill
    {
      var row := [];
      var i := 0;
      while i < |l|
        invariant 0 <= i <= |l| && |row| == i
        invariant forall j :: 0 <= j < i ==> row[j] == if t < |l[j]| then l[j][t] else fill
      {
        row := row + [if t < |l[i]| then l[i][t] else fill];
        i := i + 1;
      }
      m := m + [row];
      t := t + 1;
    }
    forall i | 0 <= i < |l|
      ensures Column(m, |l|, i) == l[i] + Repeat(fill, |m| - |l[i]|)
      ensures Column(m, |l|, i)[..|l[i]|] == l[i]
    {
      var c := Column(m, |l|, i);
      var padded := l[i] + Repeat(fill, |m| - |l[i]|);
      assert |c| == |padded|;
      forall s | 0 <= s < |c|
        ensures c[s] == padded[s]
      {
        if s < |l[i]| {
          assert padded[s] == l[i][s];
        } else {
          assert padded[s] == Repeat(fill, |m| - |l[i]|)[s - |l[i]|];
        }
      }
      assert padded[..|l[i]|] == l[i];
    }
  }

  /** `binaryMatrix`: a matrix of the same ragged shape holding 0 where the
      token is PAD and 1 everywhere else. */
  method BinaryMatrix(l: Matrix<int>) returns (m: Matrix<int>)
    ensures |m| == |l|
    ensures forall i :: 0 <= i < |l| ==> |m[i]| == |l[i]|
    ensures forall i, j :: 0 <= i < |l| && 0 <= j < |l[i]| ==> (m[i][j] == 1 <==> l[i][j] != PAD_TOKEN)
    ensures forall i, j :: 0 <= i < |l| && 0 <= j < |l[i]| ==> (m[i][j] == 0 <==> l[i][j] == PAD_TOKEN)
  {
    m := [];
    var i := 0;
    while i < |l|
      invariant 0 <= i <= |l| && |m| == i
      invariant forall s :: 0 <= s < i ==> |m[s]| == |l[s]|
      invariant forall s, j :: 0 <= s < i && 0 <= j < |l[s]| ==>
        m[s][j] == if l[s][j] == PAD_TOKEN then 0 else 1
    {
      var row := [];
      var j := 0;
      while j < |l[i]|
        invariant 0 <= j <= |l[i]| && |row| == j
        invariant forall k :: 0 <= k < j ==> row[k] == if l[i][k] == PAD_TOKEN then 0 else 1
      {
        if l[i][j] == PAD_TOKEN {
          row := row + [0];
        } else {
          row := row + [1];
        }
        j := j + 1;
      }
      m := m + [row];
      i := i + 1;
    }
  }

  /** Every sentence of `l` uses only words `v` indexes. */
  predicate AllKnown(v: Voc, l: seq<string>) {
    forall i :: 0 <= i < |l| ==> Known(v, l[i])
  }

  /** The index list of every sentence, in order. */
  function IndexesBatch(v: Voc, l: seq<string>): (r: seq<seq<int>>)
    requires AllKnown(v, l)
    ensures |r| == |l|
    ensures forall i :: 0 <= i < |l| ==> r[i] == IndexesFromSentence(v, l[i])
  {
    seq(|l|, i requires 0 <= i < |l| => IndexesFromSentence(v, l[i]))
  }

  /** Column `i` of `m` is the index list of sentence `l[i]`, padded with
      PAD to the height of `m`. */
  predicate Encoded(v: Voc, m: Matrix<int>, l: seq<string>) {
    && AllKnown(v, l)
    && Rectangular(m, |l|)
    && forall i :: 0 <= i < |l| ==>
      && WordCount(l[i]) + 1 <= |m|
      && Column(m, |l|, i) == IndexesFromSentence(v, l[i]) + Repeat(PAD_TOKEN as int, |m| - (WordCount(l[i]) + 1))
  }

  /** `ZeroPadding` of the index lists encodes the sentences, and its height
      is the longest index list. */
  method PadIndexes(l: seq<string>, v: Voc) returns (m: Matrix<int>)
    requires AllKnown(v, l)
    ensures Encoded(v, m, l)
    ensures |l| == 0 ==> |m| == 0
    ensures |l| > 0 ==> exists i :: 0 <= i < |l| && WordCount(l[i]) + 1 == |m|
  {
    var indexesBatch := IndexesBatch(v, l);
    m := ZeroPadding(indexesBatch, PAD_TOKEN);
    if |l| > 0 {
      var i :| 0 <= i < |indexesBatch| && |indexesBatch[i]| == |m|;
    }
  }

  /** `inputVar`: the padded index matrix and the length of each sentence's
      index list (its word count plus the EOS). */
  method InputVar(l: seq<string>, v: Voc) returns (padVar: Matrix<int>, lengths: seq<int>)
    requires AllKnown(v, l)
    ensures |lengths| == |l|
    ensures forall i :: 0 <= i < |l| ==> lengths[i] == WordCount(l[i]) + 1
    ensures Encoded(v, padVar, l)
    ensures |l| == 0 ==> |padVar| == 0
    ensures |l| > 0 ==> exists i :: 0 <= i < |l| && lengths[i] == |padVar|
  {
    var indexesBatch := IndexesBatch(v, l);
    lengths := seq(|indexesBatch|, i requires 0 <= i < |indexesBatch| => |indexesBatch[i]|);
    padVar := PadIndexes(l, v);
  }

  /** `outputVar`: the padded index matrix, its mask, and the length of the
      longest index list. `max` of an empty list raises `ValueError`, so
      the batch must not be empty. */
  method OutputVar(l: seq<string>, v: Voc) returns (padVar: Matrix<int>, mask: Matrix<bool>, maxTargetLen: nat)
    requires |l| > 0
    requires AllKnown(v, l)
    ensures Encoded(v, padVar, l)
    ensures maxTargetLen == |padVar|
    ensures exists i :: 0 <= i < |l| && WordCount(l[i]) + 1 == maxTargetLen
    ensures Rectangular(mask, |l|) && |mask| == |padVar|
    ensures forall t, i :: 0 <= t < |mask| && 0 <= i < |l| ==> (mask[t][i] <==> padVar[t][i] != PAD_TOKEN)
    ensures Valid(v) ==> forall t, i :: 0 <= t < |mask| && 0 <= i < |l| ==> (mask[t][i] <==> t < WordCount(l[i]) + 1)
    ensures Valid(v) ==> forall t :: 0 <= t < |mask| ==> true in mask[t]
  {
    padVar := PadIndexes(l, v);
    maxTargetLen := |padVar|;
    var bits := BinaryMatrix(padVar);
    mask := seq(|bits|, t requires 0 <= t < |bits| => seq(|bits[t]|, i requires 0 <= i < |bits[t]| => bits[t][i] == 1));
    MaskMarksTokens(v, l, padVar, mask);
    if Valid(v) {
      var longest :| 0 <= longest < |l| && WordCount(l[longest]) + 1 == maxTargetLen;
      forall t | 0 <= t < |mask|
        ensures true in mask[t]
      {
        assert mask[t][longest];
      }
    }
  }

  /** With a consistent vocabulary no word has index PAD, so the mask is
      true exactly at the real tokens of each column. */
  lemma MaskMarksTokens(v: Voc, l: seq<string>, padVar: Matrix<int>, mask: Matrix<bool>)
    requires Encoded(v, padVar, l)
    requires Rectangular(mask, |l|) && |mask| == |padVar|
    requires forall t, i :: 0 <= t < |mask| && 0 <= i < |l| ==> (mask[t][i] <==> padVar[t][i] != PAD_TOKEN)
    ensures Valid(v) ==> forall t, i :: 0 <= t < |mask| && 0 <= i < |l| ==> (mask[t][i] <==> t < WordCount(l[i]) + 1)
  {
    if Valid(v) {
      forall t, i | 0 <= t < |mask| && 0 <= i < |l|
        ensures mask[t][i] <==> t < WordCount(l[i]) + 1
      {
        var r := IndexesFromSentence(v, l[i]);
        var c := Column(padVar, |l|, i);
        assert c[t] == padVar[t][i];
        if t < |r| {
          assert c[t] == r[t];
        } else {
          assert c[t] == Repeat(PAD_TOKEN as int, |padVar| - |r|)[t - |r|];
        }
      }
    }
  }

  /** What `batch2TrainData` hands to training. */
  datatype TrainBatch = TrainBatch(
    input: Matrix<int>,
    lengths: seq<int>,
    target: Matrix<int>,
    mask: Matrix<bool>,
    maxTargetLen: nat)

  /** The sort key of `batch2TrainData`: the query's word count. */
  function InputWords(p: Pair): nat {
    WordCount(p.query)
  }

  /** The queries of a batch, in order. */
  function Queries(s: seq<Pair>): (r: seq<string>)
    ensures |r| == |s| && forall i :: 0 <= i < |s| ==> r[i] == s[i].query
  {
    seq(|s|, i requires 0 <= i < |s| => s[i].query)
  }

  /** The responses of a batch, in order. */
  function Responses(s: seq<Pair>): (r: seq<string>)
    ensures |r| == |s| && forall i :: 0 <= i < |s| ==> r[i] == s[i].response
  {
    seq(|s|, i requires 0 <= i < |s| => s[i].response)
  }

  /** The sorted batch is a stable rearrangement of the batch, so it is as
      known, and as short, as the batch was. */
  lemma SortedBatch(v: Voc, pairBatch: seq<Pair>)
    requires forall k :: 0 <= k < |pairBatch| ==> PairKnown(v, pairBatch[k])
    ensures var sorted := SortDesc(InputWords, pairBatch);
      && AllKnown(v, Queries(sorted)) && AllKnown(v, Responses(sorted))
      && ((forall k :: 0 <= k < |pairBatch| ==> ShortPair(pairBatch[k])) ==>
          forall k :: 0 <= k < |sorted| ==> ShortPair(sorted[k]))
  {
    var sorted := SortDesc(InputWords, pairBatch);
    forall k | 0 <= k < |sorted|
      ensures PairKnown(v, sorted[k])
      ensures (forall k :: 0 <= k < |pairBatch| ==> ShortPair(pairBatch[k])) ==> ShortPair(sorted[k])
    {
      assert sorted[k] in multiset(pairBatch);
    }
  }

  /** `batch2TrainData`: sorts the batch by query word count, longest
      first, then builds the input side from the queries and the target
      side from the responses, so each pair keeps one column on both
      sides. The source sorts the caller's list in place; here the sorted
      batch is returned. */
  method Batch2TrainData(v: Voc, pairBatch: seq<Pair>) returns (sorted: seq<Pair>, b: TrainBatch)
    requires |pairBatch| > 0
    requires forall k :: 0 <= k < |pairBatch| ==> PairKnown(v, pairBatch[k])
    ensures multiset(sorted) == multiset(pairBatch)
    ensures Descending(InputWords, sorted)
    ensures forall n: nat :: WithKey(InputWords, sorted, n) == WithKey(InputWords, pairBatch, n)
    ensures Encoded(v, b.input, Queries(sorted))
    ensures Encoded(v, b.target, Responses(sorted))
    ensures |b.lengths| == |sorted|
    ensures forall i :: 0 <= i < |sorted| ==> b.lengths[i] == WordCount(sorted[i].query) + 1
    ensures forall i, j :: 0 <= i < j < |sorted| ==> b.lengths[i] >= b.lengths[j]
    ensures b.maxTargetLen == |b.target|
    ensures exists i :: 0 <= i < |sorted| && WordCount(sorted[i].response) + 1 == b.maxTargetLen
    ensures Rectangular(b.mask, |sorted|) && |b.mask| == |b.target|
    ensures Valid(v) ==> forall t, i :: 0 <= t < |b.mask| && 0 <= i < |sorted| ==>
      (b.mask[t][i] <==> t < WordCount(sorted[i].response) + 1)
    ensures Valid(v) ==> forall t :: 0 <= t < |b.mask| ==> true in b.mask[t]
    ensures (forall k :: 0 <= k < |pairBatch| ==> ShortPair(pairBatch[k])) ==>
      b.maxTargetLen <= MAX_LENGTH && forall i :: 0 <= i < |sorted| ==> b.lengths[i] <= MAX_LENGTH
  {
    sorted := SortDesc(InputWords, pairBatch);
    forall n: nat
      ensures WithKey(InputWords, sorted, n) == WithKey(InputWords, pairBatch, n)
    {
      SortStable(InputWords, pairBatch, n);
    }
    SortedBatch(v, pairBatch);
    b := BuildBatch(v, sorted);
  }

  /** The tensors of a batch already in order: the input side from the
      queries, the target side from the responses. */
  method BuildBatch(v: Voc, sorted: seq<Pair>) returns (b: TrainBatch)
    requires |sorted| > 0
    requires AllKnown(v, Queries(sorted)) && AllKnown(v, Responses(sorted))
    requires Descending(InputWords, sorted)
    ensures Encoded(v, b.input, Queries(sorted))
    ensures Encoded(v, b.target, Responses(sorted))
    ensures |b.lengths| == |sorted|
    ensures forall i :: 0 <= i < |sorted| ==> b.lengths[i] == WordCount(sorted[i].query) + 1
    ensures forall i, j :: 0 <= i < j < |sorted| ==> b.lengths[i] >= b.lengths[j]
    ensures b.maxTargetLen == |b.target|
    ensures exists i :: 0 <= i < |sorted| && WordCount(sorted[i].response) + 1 == b.maxTargetLen
    ensures Rectangular(b.mask, |sorted|) && |b.mask| == |b.target|
    ensures Valid(v) ==> forall t, i :: 0 <= t < |b.mask| && 0 <= i < |sorted| ==>
      (b.mask[t][i] <==> t < WordCount(sorted[i].response) + 1)
    ensures Valid(v) ==> forall t :: 0 <= t < |b.mask| ==> true in b.mask[t]
    ensures (forall k :: 0 <= k < |sorted| ==> ShortPair(sorted[k])) ==>
      b.maxTargetLen <= MAX_LENGTH && forall i :: 0 <= i < |sorted| ==> b.lengths[i] <= MAX_LENGTH
  {
    var inp, lengths := InputVar(Queries(sorted), v);
    BatchLengths(sorted, lengths);
    var output, mask, maxTargetLen := TargetSide(v, sorted);
    b := TrainBatch(inp, lengths, output, mask, maxTargetLen);
  }

  /** `outputVar` on the responses of a batch, stated per pair. */
  method TargetSide(v: Voc, sorted: seq<Pair>) returns (output: Matrix<int>, mask: Matrix<bool>, maxTargetLen: nat)
    requires |sorted| > 0
    requires AllKnown(v, Responses(sorted))
    ensures Encoded(v, output, Responses(sorted))
    ensures maxTargetLen == |output|
    ensures exists i :: 0 <= i < |sorted| && WordCount(sorted[i].response) + 1 == maxTargetLen
    ensures Rectangular(mask, |sorted|) && |mask| == |output|
    ensures Valid(v) ==> forall t, i :: 0 <= t < |mask| && 0 <= i < |sorted| ==>
      (mask[t][i] <==> t < WordCount(sorted[i].response) + 1)
    ensures Valid(v) ==> forall t :: 0 <= t < |mask| ==> true in mask[t]
    ensures (forall k :: 0 <= k < |sorted| ==> ShortPair(sorted[k])) ==> maxTargetLen <= MAX_LENGTH
  {
    var responses := Responses(sorted);
    output, mask, maxTargetLen := OutputVar(responses, v);
    var longest :| 0 <= longest < |responses| && WordCount(responses[longest]) + 1 == maxTargetLen;
    assert responses[longest] == sorted[longest].response;
    if Valid(v) {
      forall t, i | 0 <= t < |mask| && 0 <= i < |sorted|
        ensures mask[t][i] <==> t < WordCount(sorted[i].response) + 1
      {
        assert responses[i] == sorted[i].response;
      }
    }
  }

  /** The lengths of a sorted batch follow its order, and a batch of short
      pairs has short lengths. */
  lemma BatchLengths(sorted: seq<Pair>, lengths: seq<int>)
    requires Descending(InputWords, sorted)
    requires |lengths| == |sorted|
    requires forall i :: 0 <= i < |sorted| ==> lengths[i] == WordCount(Queries(sorted)[i]) + 1
    ensures forall i :: 0 <= i < |sorted| ==> lengths[i] == WordCount(sorted[i].query) + 1
    ensures forall i, j :: 0 <= i < j < |sorted| ==> lengths[i] >= lengths[j]
    ensures (forall k :: 0 <= k < |sorted| ==> ShortPair(sorted[k])) ==>
      forall i :: 0 <= i < |sorted| ==> lengths[i] <= MAX_LENGTH
  {
    forall i, j | 0 <= i < j < |sorted|
      ensures lengths[i] >= lengths[j]
    {
      assert InputWords(sorted[i]) >= InputWords(sorted[j]);
    }
  }
}
