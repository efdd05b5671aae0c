/** The vocabulary (`Voc` in chatbot.py): an append-only word <-> index
    bijection with per-word counts, and the one-shot `trim` that rebuilds it
    from the frequent words only. */
module Vocabulary {
  import opened Text

  /** Reserved indices. */
  const PAD_TOKEN: nat := 0
  const SOS_TOKEN: nat := 1
  const EOS_TOKEN: nat := 2
  /** Number of reserved indices: the first word added gets this index. */
  const RESERVED: nat := 3

  datatype Voc = Voc(
    name: string,
    trimmed: bool,
    word2index: map<string, nat>,
    word2count: map<string, nat>,
    index2word: map<nat, string>,
    numWords: nat)

  /** The representation invariant every reachable vocabulary keeps:
      the reserved entries sit at 0, 1 and 2 and are never a word's index,
      `word2index` and `index2word` are inverse on 3 .. numWords-1, and
      every word has a positive count. */
  ghost predicate Valid(v: Voc) {
    && v.numWords == RESERVED + |v.word2index|
    && ReservedKept(v)
    && Dense(v)
    && Counted(v)
    && Indexed(v)
    && Numbered(v)
  }

  /** `index2word` names the reserved indices. */
  predicate ReservedKept(v: Voc) {
    && PAD_TOKEN in v.index2word && v.index2word[PAD_TOKEN] == "PAD"
    && SOS_TOKEN in v.index2word && v.index2word[SOS_TOKEN] == "SOS"
    && EOS_TOKEN in v.index2word && v.index2word[EOS_TOKEN] == "EOS"
  }

  /** `index2word` covers exactly the indices below `numWords`. */
  ghost predicate Dense(v: Voc) {
    forall i: nat :: i in v.index2word <==> i < v.numWords
  }

  /** A word has a count exactly when it has an index, and counts are positive. */
  ghost predicate Counted(v: Voc) {
    && v.word2count.Keys == v.word2index.Keys
    && forall w :: w in v.word2count ==> v.word2count[w] >= 1
  }

  /** Every word's index is a non-reserved index that maps back to it. */
  ghost predicate Indexed(v: Voc) {
    forall w :: w in v.word2index ==>
      && RESERVED <= v.word2index[w] < v.numWords
      && v.word2index[w] in v.index2word && v.index2word[v.word2index[w]] == w
  }

  /** Every non-reserved index below `numWords` names a word indexed by it. */
  ghost predicate Numbered(v: Voc) {
    forall i: nat :: RESERVED <= i < v.numWords ==>
      i in v.index2word && v.index2word[i] in v.word2index && v.word2index[v.index2word[i]] == i
  }

  /** How often `w` has been added; 0 for a word never seen. */
  function Count(v: Voc, w: string): nat {
    if w in v.word2count then v.word2count[w] else 0
  }

  /** Every word of `s` has an index, so looking it up cannot fail. */
  predicate Known(v: Voc, s: string) {
    forall w :: w in Split(s) ==> w in v.word2index
  }

  /** `Voc(name)`: only the three reserved entries. */
  function NewVoc(name: string): (v: Voc)
    ensures Valid(v)
    ensures v.name == name && !v.trimmed
    ensures v.numWords == RESERVED
    ensures forall w :: w !in v.word2index && Count(v, w) == 0
  {
    Voc(name, false, map[], map[], map[PAD_TOKEN := "PAD", SOS_TOKEN := "SOS", EOS_TOKEN := "EOS"], RESERVED)
  }

  /** `addWord`: a new word gets the next free index and count 1; a known
      word only has its count incremented. */
  function AddWord(v: Voc, w: string): (r: Voc)
    ensures r.name == v.name && r.trimmed == v.trimmed
    ensures w in r.word2index
    ensures w !in v.word2index ==>
      && r.word2index[w] == v.numWords
      && v.numWords in r.index2word && r.index2word[v.numWords] == w
      && r.numWords == v.numWords + 1
      && Count(r, w) == 1
    ensures w in v.word2index ==>
      && r.word2index == v.word2index
      && r.index2word == v.index2word
      && r.numWords == v.numWords
      && Count(r, w) == Count(v, w) + 1
    ensures forall u :: u != w ==> Count(r, u) == Count(v, u)
    ensures forall u :: u in v.word2index ==> u in r.word2index && r.word2index[u] == v.word2index[u]
    ensures forall u :: u in r.word2index ==> u in v.word2index || u == w
  {
    if w !in v.word2index then
      v.(word2index := v.word2index[w := v.numWords],
         word2count := v.word2count[w := 1],
         index2word := v.index2word[v.numWords := w],
         numWords := v.numWords + 1)
    else
      v.(word2count := v.word2count[w := Count(v, w) + 1])
  }

  /** `addWord` keeps the counting part of the invariant. */
  lemma AddWordKeepsCounted(v: Voc, w: string)
    requires Counted(v)
    ensures Counted(AddWord(v, w))
  {
    assert AddWord(v, w).word2count.Keys == v.word2count.Keys + {w};
  }

  /** A new word keeps `index2word` dense. */
  lemma AddNewWordDense(v: Voc, w: string)
    requires Dense(v) && w !in v.word2index
    ensures Dense(AddWord(v, w))
  {
    var r := AddWord(v, w);
    assert r.index2word == v.index2word[v.numWords := w];
  }

  /** A new word's index maps back to it, and old ones still do. */
  lemma AddNewWordIndexed(v: Voc, w: string)
    requires Indexed(v) && w !in v.word2index && RESERVED <= v.numWords
    ensures Indexed(AddWord(v, w))
  {
    var n := v.numWords;
    var w2i, i2w := v.word2index[w := n], v.index2word[n := w];
    assert AddWord(v, w).word2index == w2i && AddWord(v, w).index2word == i2w;
    forall u | u in w2i
      ensures RESERVED <= w2i[u] < n + 1 && w2i[u] in i2w && i2w[w2i[u]] == u
    {
      if u != w {
        assert w2i[u] == v.word2index[u] < n;
      }
    }
  }

  /** The new index names the new word, and old indices still name theirs. */
  lemma AddNewWordNumbered(v: Voc, w: string)
    requires Numbered(v) && w !in v.word2index
    ensures Numbered(AddWord(v, w))
  {
    var n := v.numWords;
    var w2i, i2w := v.word2index[w := n], v.index2word[n := w];
    assert AddWord(v, w).word2index == w2i && AddWord(v, w).index2word == i2w;
    forall i: nat | RESERVED <= i < n + 1
      ensures i in i2w && i2w[i] in w2i && w2i[i2w[i]] == i
    {
      if i < n {
        var u := v.index2word[i];
        assert i2w[i] == u;
        assert u in v.word2index && u != w;
        assert w2i[u] == v.word2index[u];
      } else {
        assert i == n && i2w[i] == w && w in w2i;
      }
    }
  }

  /** `addWord` keeps the vocabulary invariant. */
  lemma AddWordKeepsValid(v: Voc, w: string)
    requires Valid(v)
    ensures Valid(AddWord(v, w))
  {
    AddWordKeepsCounted(v, w);
    if w !in v.word2index {
      AddNewWordKeepsValid(v, w);
    } else {
      var r := AddWord(v, w);
      assert r.word2index == v.word2index && r.index2word == v.index2word && r.numWords == v.numWords;
    }
  }

  /** The new-word case of `AddWordKeepsValid`. */
  lemma AddNewWordKeepsValid(v: Voc, w: string)
    requires Valid(v) && w !in v.word2index
    ensures Valid(AddWord(v, w))
  {
    var r := AddWord(v, w);
    AddWordKeepsCounted(v, w);
    AddNewWordDense(v, w);
    AddNewWordIndexed(v, w);
    AddNewWordNumbered(v, w);
    MapAddSize(v.word2index, w, v.numWords);
  }

  /** A map grows by one entry when a new key is added. */
  lemma MapAddSize<K, V>(m: map<K, V>, k: K, x: V)
    requires k !in m
    ensures |m[k := x]| == |m| + 1
  {
  }

  /** The words of `ws` added one after the other, as the source's loops do:
      each count grows by the word's number of occurrences, the new words
      join the index, and the old words keep theirs. */
  function AddWords(v: Voc, ws: seq<string>): (r: Voc)
    requires Counted(v)
    ensures Counted(r)
    ensures r.name == v.name && r.trimmed == v.trimmed
    ensures forall u :: Count(r, u) == Count(v, u) + multiset(ws)[u]
    ensures forall u :: u in r.word2index <==> u in v.word2index || u in ws
    ensures forall u :: u in v.word2index ==> r.word2index[u] == v.word2index[u]
    decreases |ws|
  {
    if |ws| == 0 then v
    else
      assert ws == [ws[0]] + ws[1..];
      AddWordKeepsCounted(v, ws[0]);
      AddWords(AddWord(v, ws[0]), ws[1..])
  }

  /** Adding words keeps the vocabulary invariant. */
  lemma {:induction false} AddWordsKeepsValid(v: Voc, ws: seq<string>)
    requires Valid(v)
    ensures Valid(AddWords(v, ws))
    decreases |ws|
  {
    if |ws| > 0 {
      AddWordKeepsValid(v, ws[0]);
      AddWordsKeepsValid(AddWord(v, ws[0]), ws[1..]);
    }
  }

  /** Adding distinct words none of which is known numbers them
      consecutively from `numWords`, each with count 1. */
  lemma {:induction false} AddFreshWords(v: Voc, ws: seq<string>)
    requires Counted(v)
    requires forall j, k :: 0 <= j < k < |ws| ==> ws[j] != ws[k]
    requires forall k :: 0 <= k < |ws| ==> ws[k] !in v.word2index
    ensures AddWords(v, ws).numWords == v.numWords + |ws|
    ensures forall k :: 0 <= k < |ws| ==> AddWords(v, ws).word2index[ws[k]] == v.numWords + k
    ensures forall k :: 0 <= k < |ws| ==> AddWords(v, ws).word2count[ws[k]] == 1
    decreases |ws|
  {
    if |ws| > 0 {
      var v1 := AddWord(v, ws[0]);
      AddWordKeepsCounted(v, ws[0]);
      AddFreshWords(v1, ws[1..]);
      var r := AddWords(v, ws);
      assert r == AddWords(v1, ws[1..]);
      forall k | 0 <= k < |ws|
        ensures r.word2index[ws[k]] == v.numWords + k && r.word2count[ws[k]] == 1
      {
        if k > 0 {
          assert ws[k] == ws[1..][k - 1];
        } else {
          assert ws[0] !in ws[1..];
          assert Count(r, ws[0]) == 1;
        }
      }
    }
  }

  /** `addSentence`: every space-separated word of `s`, in order. */
  function AddSentence(v: Voc, s: string): (r: Voc)
    requires Valid(v)
    ensures Valid(r) && Known(r, s)
    ensures forall u :: Count(r, u) == Count(v, u) + multiset(Split(s))[u]
    ensures forall u :: u in r.word2index <==> u in v.word2index || u in Split(s)
    ensures forall u :: u in v.word2index ==> r.word2index[u] == v.word2index[u]
  {
    AddWordsKeepsValid(v, Split(s));
    AddWords(v, Split(s))
  }

  /** The words whose index is below `n` and whose count reaches `minCount`,
      in index order: the order `trim` meets them in the insertion-ordered
      `word2count`. */
  function KeptBelow(v: Voc, minCount: int, n: nat): (ws: seq<string>)
    requires Valid(v) && n <= v.numWords
    ensures forall k :: 0 <= k < |ws| ==>
      ws[k] in v.word2index && v.word2index[ws[k]] < n && v.word2count[ws[k]] >= minCount
    ensures forall j, k :: 0 <= j < k < |ws| ==> v.word2index[ws[j]] < v.word2index[ws[k]]
    ensures forall w :: w in v.word2index && v.word2index[w] < n && v.word2count[w] >= minCount ==> w in ws
    decreases n
  {
    if n <= RESERVED then []
    else
      var w := v.index2word[n - 1];
      KeptBelow(v, minCount, n - 1) + (if v.word2count[w] >= minCount then [w] else [])
  }

  /** The vocabulary `trim` rebuilds: a fresh one, marked trimmed, to
      which the kept words are added in their old order. */
  function Rebuild(v: Voc, minCount: int): Voc
    requires Valid(v)
  {
    AddWords(NewVoc(v.name).(trimmed := true), KeptBelow(v, minCount, v.numWords))
  }

  /** The rebuild is a valid, trimmed vocabulary of the same name. */
  lemma RebuildValid(v: Voc, minCount: int)
    requires Valid(v)
    ensures Valid(Rebuild(v, minCount))
    ensures Rebuild(v, minCount).trimmed && Rebuild(v, minCount).name == v.name
  {
    AddWordsKeepsValid(NewVoc(v.name).(trimmed := true), KeptBelow(v, minCount, v.numWords));
  }

  /** The rebuild indexes exactly the words counted at least `minCount` times. */
  lemma RebuildKeys(v: Voc, minCount: int)
    requires Valid(v)
    ensures forall w :: w in Rebuild(v, minCount).word2index <==>
      w in v.word2index && v.word2count[w] >= minCount
  {
  }

  /** Every word of the rebuild is counted once. */
  lemma RebuildCounts(v: Voc, minCount: int)
    requires Valid(v)
    ensures forall w :: w in Rebuild(v, minCount).word2count ==> Rebuild(v, minCount).word2count[w] == 1
  {
    RebuildNumbers(v, minCount);
  }

  /** The rebuild numbers the kept words in their old order. */
  lemma RebuildOrder(v: Voc, minCount: int)
    requires Valid(v)
    ensures var r := Rebuild(v, minCount);
      forall u, w :: u in r.word2index && w in r.word2index ==>
        (v.word2index[u] < v.word2index[w] <==> r.word2index[u] < r.word2index[w])
  {
    var keep := KeptBelow(v, minCount, v.numWords);
    var r := Rebuild(v, minCount);
    RebuildNumbers(v, minCount);
    forall u, w | u in r.word2index && w in r.word2index
      ensures u in v.word2index && w in v.word2index
      ensures v.word2index[u] < v.word2index[w] <==> r.word2index[u] < r.word2index[w]
    {
      Renumbered(keep, v.word2index, r.word2index, u, w);
    }
  }

  /** The rebuild holds only the kept words, numbered from 3 in list order. */
  lemma RebuildNumbers(v: Voc, minCount: int)
    requires Valid(v)
    ensures var keep := KeptBelow(v, minCount, v.numWords);
      var r := Rebuild(v, minCount);
      && (forall u :: u in r.word2index ==> u in keep)
      && (forall k :: 0 <= k < |keep| ==> keep[k] in r.word2index && r.word2index[keep[k]] == RESERVED + k)
      && (forall w :: w in r.word2count ==> r.word2count[w] == 1)
  {
    var keep := KeptBelow(v, minCount, v.numWords);
    forall j, k | 0 <= j < k < |keep|
      ensures keep[j] != keep[k]
    {
      assert v.word2index[keep[j]] < v.word2index[keep[k]];
    }
    AddToEmpty(NewVoc(v.name).(trimmed := true), keep);
  }

  /** Adding distinct words to a vocabulary without words numbers exactly
      them, in list order, each counted once. */
  lemma AddToEmpty(b: Voc, ws: seq<string>)
    requires Counted(b) && b.word2index == map[]
    requires forall j, k :: 0 <= j < k < |ws| ==> ws[j] != ws[k]
    ensures var r := AddWords(b, ws);
      && (forall u :: u in r.word2index ==> u in ws)
      && (forall k :: 0 <= k < |ws| ==> ws[k] in r.word2index && r.word2index[ws[k]] == b.numWords + k)
      && (forall w :: w in r.word2count ==> r.word2count[w] == 1)
  {
    AddFreshWords(b, ws);
    var r := AddWords(b, ws);
    assert r.word2count.Keys == r.word2index.Keys;
    forall w | w in r.word2count
      ensures r.word2count[w] == 1
    {
      assert w in r.word2index && w !in b.word2index;
      var k :| 0 <= k < |ws| && ws[k] == w;
    }
  }

  /** Numbering a list from 3 that is sorted by old index keeps the old order. */
  lemma Renumbered(keep: seq<string>, before: map<string, nat>, after: map<string, nat>, u: string, w: string)
    requires forall k :: 0 <= k < |keep| ==> keep[k] in before && keep[k] in after && after[keep[k]] == RESERVED + k
    requires forall j, k :: 0 <= j < k < |keep| ==> before[keep[j]] < before[keep[k]]
    requires u in keep && w in keep
    ensures before[u] < before[w] <==> after[u] < after[w]
  {
    var j :| 0 <= j < |keep| && keep[j] == u;
    var k :| 0 <= k < |keep| && keep[k] == w;
    if k < j {
      assert before[w] < before[u];
    }
  }

  /** `trim(min_count)`: the first call rebuilds the vocabulary from the
      words counted at least `minCount` times, renumbered from 3 in their
      old order, each with count 1 (the rebuild re-uses `addWord`); every
      later call does nothing. The source reports the kept fraction by
      dividing by the old vocabulary size, so it needs a non-empty
      vocabulary on the first call. */
  function Trim(v: Voc, minCount: int): (r: Voc)
    requires Valid(v)
    requires v.trimmed || |v.word2index| > 0
    ensures Valid(r) && r.trimmed && r.name == v.name
    ensures v.trimmed ==> r == v
    ensures !v.trimmed ==>
      forall w :: w in r.word2index <==> w in v.word2index && v.word2count[w] >= minCount
    ensures !v.trimmed ==> forall w :: w in r.word2count ==> r.word2count[w] == 1
    ensures !v.trimmed ==>
      forall u, w :: u in r.word2index && w in r.word2index ==>
        (v.word2index[u] < v.word2index[w] <==> r.word2index[u] < r.word2index[w])
  {
    if v.trimmed then v
    else
      RebuildValid(v, minCount);
      RebuildKeys(v, minCount);
      RebuildCounts(v, minCount);
      RebuildOrder(v, minCount);
      Rebuild(v, minCount)
  }

  /** A second `trim` is a no-op, whatever its threshold. */
  lemma TrimTwice(v: Voc, m1: int, m2: int)
    requires Valid(v)
    requires v.trimmed || |v.word2index| > 0
    ensures Trim(Trim(v, m1), m2) == Trim(v, m1)
  {
  }
}
