/** Query/response pairs: forming them from conversations, dropping the
    long ones, and dropping those that use a word the trimmed vocabulary
    no longer has. */
module Pairs {
  import opened Text
  import opened Seqs
  import opened Vocabulary

  /** Sentences must have fewer words than this to be kept. */
  const MAX_LENGTH: nat := 10

  /** A query sentence and the response to it. */
  datatype Pair = Pair(query: string, response: string)

  /** `filterPair`: both sides have fewer than MAX_LENGTH words, that is,
      each side has fewer than MAX_LENGTH - 1 spaces. */
  predicate ShortPair(p: Pair)
    ensures ShortPair(p) <==>
      multiset(p.query)[' '] < MAX_LENGTH - 1 && multiset(p.response)[' '] < MAX_LENGTH - 1
  {
    SplitWords(p.query);
    SplitWords(p.response);
    WordCount(p.query) < MAX_LENGTH && WordCount(p.response) < MAX_LENGTH
  }

  /** `filterPairs`: the short pairs, in their original order, with every
      short pair kept as often as it occurs. */
  function FilterPairs(pairs: seq<Pair>): (r: seq<Pair>)
    ensures IsSubseq(r, pairs)
    ensures forall k :: 0 <= k < |r| ==>
      |Split(r[k].query)| < MAX_LENGTH && |Split(r[k].response)| < MAX_LENGTH
    ensures forall p: Pair :: |Split(p.query)| < MAX_LENGTH && |Split(p.response)| < MAX_LENGTH ==>
      multiset(r)[p] == multiset(pairs)[p]
  {
    Filter(ShortPair, pairs)
  }

  /** Both sides of `p` use only words `v` indexes. */
  predicate PairKnown(v: Voc, p: Pair) {
    Known(v, p.query) && Known(v, p.response)
  }

  /** The word loop of `trimRareWords`: scans the words of `s` and stops at
      the first one `v` does not index. */
  method SentenceKnown(v: Voc, s: string) returns (keep: bool)
    ensures keep <==> forall w :: w in Split(s) ==> w in v.word2index
  {
    var words := Split(s);
    keep := true;
    var i := 0;
    while i < |words|
      invariant 0 <= i <= |words|
      invariant keep
      invariant forall k :: 0 <= k < i ==> words[k] in v.word2index
    {
      if words[i] !in v.word2index {
        keep := false;
        break;
      }
      i := i + 1;
    }
  }

  /** One step of the pair loop: the next pair is kept exactly when `v`
      knows both its sentences. */
  lemma KeptKnownStep(v: Voc, kept: seq<Pair>, pairs: seq<Pair>, i: nat)
    requires i < |pairs|
    requires Selected(p => PairKnown(v, p), kept, pairs[..i])
    ensures Selected(p => PairKnown(v, p), if PairKnown(v, pairs[i]) then kept + [pairs[i]] else kept, pairs[..i + 1])
  {
    assert pairs[..i + 1] == pairs[..i] + [pairs[i]];
    SelectedStep(p => PairKnown(v, p), kept, pairs[..i], pairs[i]);
  }

  /** The pair loop of `trimRareWords`: keeps, in order, the pairs both of
      whose sentences use only words `v` indexes. */
  method KeepKnownPairs(v: Voc, pairs: seq<Pair>) returns (kept: seq<Pair>)
    ensures IsSubseq(kept, pairs)
    ensures forall k :: 0 <= k < |kept| ==> PairKnown(v, kept[k])
    ensures forall p :: PairKnown(v, p) ==> multiset(kept)[p] == multiset(pairs)[p]
  {
    kept := [];
    var i := 0;
    while i < |pairs|
      invariant 0 <= i <= |pairs|
      invariant Selected(p => PairKnown(v, p), kept, pairs[..i])
    {
      var keepInput := SentenceKnown(v, pairs[i].query);
      var keepOutput := SentenceKnown(v, pairs[i].response);
      KeptKnownStep(v, kept, pairs, i);
      if keepInput && keepOutput {
        kept := kept + [pairs[i]];
      }
      i := i + 1;
    }
    assert pairs[..i] == pairs;
  }

  /** `trimRareWords`: trims the vocabulary, then keeps the pairs all of
      whose words survived. The source reports the kept fraction by dividing
      by the number of pairs, so it needs at least one pair. */
  method TrimRareWords(v: Voc, pairs: seq<Pair>, minCount: int) returns (trimmed: Voc, kept: seq<Pair>)
    requires Valid(v)
    requires v.trimmed || |v.word2index| > 0
    requires |pairs| > 0
    ensures trimmed == Trim(v, minCount)
    ensures IsSubseq(kept, pairs)
    ensures forall k :: 0 <= k < |kept| ==> PairKnown(trimmed, kept[k])
    ensures forall p :: PairKnown(trimmed, p) ==> multiset(kept)[p] == multiset(pairs)[p]
  {
    trimmed := Trim(v, minCount);
    kept := KeepKnownPairs(trimmed, pairs);
  }

  /** A conversation: the text of its lines, in order. */
  datatype Conversation = Conversation(lines: seq<string>)

  /** Line `i` as the query and line `i + 1` as the response, both stripped. */
  function LinePair(lines: seq<string>, i: nat): Pair
    requires i + 1 < |lines|
  {
    Pair(Strip(lines[i]), Strip(lines[i + 1]))
  }

  /** Every pair of consecutive lines; the last line has no response. */
  function Candidates(lines: seq<string>): (r: seq<Pair>)
    ensures |r| == if |lines| == 0 then 0 else |lines| - 1
    ensures forall i :: 0 <= i < |r| ==> r[i] == LinePair(lines, i)
  {
    if |lines| < 2 then [] else seq(|lines| - 1, i requires 0 <= i < |lines| - 1 => LinePair(lines, i))
  }

  /** Neither side is empty after stripping. */
  predicate Usable(p: Pair) {
    p.query != [] && p.response != []
  }

  /** The pairs one conversation contributes. */
  function ConversationPairs(lines: seq<string>): seq<Pair> {
    Filter(Usable, Candidates(lines))
  }

  /** `ConversationPairs` of a `Conversation` record's lines: it only
      unwraps the record, so that `FlatMap` can run over conversations. */
  function PairsOf(c: Conversation): seq<Pair> {
    ConversationPairs(c.lines)
  }

  /** `extractSentencePairs`: for each conversation in turn, each pair of
      consecutive lines, stripped, unless either side is then empty. */
  function ExtractSentencePairs(convs: seq<Conversation>): (r: seq<Pair>)
    ensures forall p :: p in r ==>
      Usable(p) && Strip(p.query) == p.query && Strip(p.response) == p.response
  {
    var r := FlatMap(PairsOf, convs);
    assert forall p :: p in r ==>
      Usable(p) && Strip(p.query) == p.query && Strip(p.response) == p.response
    by {
      forall p | p in r
        ensures Usable(p) && Strip(p.query) == p.query && Strip(p.response) == p.response
      {
        FlatMapMember(PairsOf, convs, p);
        var j :| 0 <= j < |convs| && p in PairsOf(convs[j]);
        var lines := convs[j].lines;
        ConversationPairsExact(lines, p);
        var i :| 0 <= i < |lines| - 1 && p == LinePair(lines, i);
        StripIdempotent(lines[i]);
        StripIdempotent(lines[i + 1]);
      }
    }
    r
  }

  /** Pairs come out conversation by conversation. */
  lemma ExtractConcat(a: seq<Conversation>, b: seq<Conversation>)
    ensures ExtractSentencePairs(a + b) == ExtractSentencePairs(a) + ExtractSentencePairs(b)
  {
    FlatMapConcat(PairsOf, a, b);
  }

  /** The pairs of one conversation are two of its consecutive lines,
      stripped, non-empty on both sides, and every such pair is one. */
  lemma ConversationPairsExact(lines: seq<string>, p: Pair)
    ensures p in ConversationPairs(lines) <==>
      Usable(p) && exists i :: 0 <= i < |lines| - 1 && p == LinePair(lines, i)
  {
    var cands := Candidates(lines);
    if p in ConversationPairs(lines) {
      SubseqMembers(ConversationPairs(lines), cands);
      var i :| 0 <= i < |cands| && cands[i] == p;
    }
    if Usable(p) && exists i :: 0 <= i < |lines| - 1 && p == LinePair(lines, i) {
      var i :| 0 <= i < |lines| - 1 && p == LinePair(lines, i);
      assert cands[i] == p;
      assert multiset(cands)[p] > 0;
    }
  }

  /** A pair is extracted exactly when it is two consecutive lines of some
      conversation, stripped, and non-empty on both sides. */
  lemma ExtractExact(convs: seq<Conversation>, p: Pair)
    ensures p in ExtractSentencePairs(convs) <==>
      Usable(p) && exists j, i :: 0 <= j < |convs| && 0 <= i < |convs[j].lines| - 1
                                  && p == LinePair(convs[j].lines, i)
  {
    FlatMapMember(PairsOf, convs, p);
    if p in ExtractSentencePairs(convs) {
      var j :| 0 <= j < |convs| && p in PairsOf(convs[j]);
      ConversationPairsExact(convs[j].lines, p);
    }
    if Usable(p) && exists j, i :: 0 <= j < |convs| && 0 <= i < |convs[j].lines| - 1
                                   && p == LinePair(convs[j].lines, i) {
      var j, i :| 0 <= j < |convs| && 0 <= i < |convs[j].lines| - 1
                  && p == LinePair(convs[j].lines, i);
      ConversationPairsExact(convs[j].lines, p);
    }
  }
}
