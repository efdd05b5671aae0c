# Chatbot data preparation, modelled in Dafny

This project models the discrete data-preparation layer of a PyTorch
sequence-to-sequence chatbot (`chatbot.py`). It covers the parts that feed
the networks and the parts that turn their output back into text:

- **`Voc`**: an append-only word/index bijection with per-word counts. PAD,
  SOS and EOS are reserved at indices 0, 1 and 2. Its one-shot `trim` keeps
  only the frequent words.
- **Pair preparation**:
  - `extractSentencePairs`: consecutive lines of a conversation, stripped, with
    empty sides dropped;
  - `filterPair`/`filterPairs`: fewer than `MAX_LENGTH` words per side;
  - `trimRareWords`: only pairs whose words survived the trim.
- **Batch building**:
  - `indexesFromSentence`, `zeroPadding`, `binaryMatrix`, `inputVar`, `outputVar`;
  - `batch2TrainData`, which sorts a batch by query length, longest first.

  A tensor is a `seq<seq<int>>` whose first dimension is the time step.
- **Small inference pieces**:
  - the attention-method check of `Attn.__init__`;
  - the loop shape of `GreedySearchDecoder.forward`, with the decoder step as an
    uninterpreted function;
  - one turn of `evaluateInput`, including its EOS/PAD filter and its
    unknown-word path;
  - `normalizeString` on ASCII text.

Every Python operation is modelled on immutable values.
- An in-place update returns the new value.
- An exception becomes an error value or a precondition:
  - a `KeyError` that `evaluateInput` catches is an error value;
  - the `ValueError` that `Attn.__init__` raises for an unknown method name is an error value too, because `Inference.MakeAttn` returns its arguments;
  - a `KeyError` the source lets escape is a precondition;
  - so is the `ValueError` that `max([])` raises in `outputVar`: a batch is never empty;
  - so is a division by zero in a diagnostic print.

Modules:
- `Text`: `str.split(" ")`, `" ".join`, `str.strip`.
- `Seqs`: order-preserving filters and concatenation loops.
- `Vocabulary`: `Voc`.
- `Pairs`: pair extraction and filtering.
- `Sorting`: the stable descending sort.
- `Batch`: tensor building.
- `Inference`: attention choice, greedy decoding and replies.
- `Normalize`: `normalizeString`.

The vocabulary invariant `Vocabulary.Valid` says:
- the reserved entries sit at 0, 1 and 2 and are never a word's index;
- `word2index` and `index2word` are inverse on `3 .. numWords-1`;
- `index2word` covers exactly `0 .. numWords-1`;
- `numWords == 3 + |word2index|`;
- every word has a positive count.

`Voc(name)` establishes it. `addWord`, `addSentence` and `trim` keep it.

Python dictionaries iterate in insertion order. A word enters `word2count`
when it receives its index, so `trim` meets the words in index order. The
model iterates over indices `3 .. numWords-1`.

## Model

| member | source | states |
|---|---|---|
| Text.SplitWords | chatbot.py:393 | `s.split(" ")` yields one more word than `s` has spaces, and no word contains a space |
| Text.JoinSplit | chatbot.py:393 | joining the split words with single spaces gives back the sentence, so splitting loses nothing |
| Text.SplitJoin | chatbot.py:935 | splitting words joined by single spaces gives the words back, provided none contains a space |
| Text.Strip | chatbot.py:112-113 | `strip()` yields the infix left after dropping leading and trailing whitespace; it is empty exactly when the line is all whitespace, and otherwise starts and ends with a non-space |
| Text.StripIdempotent | chatbot.py:112-113 | stripping a stripped line changes nothing |
| Seqs.Filter | chatbot.py:275-276 | a list comprehension with a condition keeps, in order, exactly the elements that pass, each as often as it occurs |
| Vocabulary.NewVoc | chatbot.py:180-186 | a new vocabulary is valid, untrimmed, holds only PAD, SOS and EOS, and the first word will get index 3 |
| Vocabulary.AddWord | chatbot.py:192-199 | a new word gets index `num_words` in both maps with count 1, and `num_words` grows by one; a known word only has its count incremented; no other word's index or count changes |
| Vocabulary.AddWordKeepsValid | chatbot.py:192-199 | `addWord` keeps the vocabulary invariant |
| Vocabulary.AddWords | chatbot.py:188-190 | adding words one by one raises each word's count by its number of occurrences, indexes exactly the old words plus the new ones, and keeps every old index |
| Vocabulary.AddWordsKeepsValid | chatbot.py:188-199 | adding any sequence of words keeps the vocabulary invariant |
| Vocabulary.AddFreshWords | chatbot.py:192-197 | distinct unseen words are numbered consecutively from `num_words`, each with count 1 |
| Vocabulary.AddSentence | chatbot.py:188-190 | after `addSentence` every word of the sentence is indexed, counts grow by the word's occurrences in it, and the invariant holds |
| Vocabulary.KeptBelow | chatbot.py:207-211 | the words `trim` keeps are exactly those counted at least `min_count` times, in index order |
| Vocabulary.RebuildOrder | chatbot.py:214-219 | re-adding the kept words numbers them in their old relative order |
| Vocabulary.RebuildCounts | chatbot.py:218-219 | every word surviving the rebuild has count 1, because the rebuild re-uses `addWord` |
| Vocabulary.Trim | chatbot.py:202-219 | the first `trim` keeps exactly the words counted at least `min_count` times, renumbered contiguously from 3 in their old order, each with count 1, and the invariant holds; on a trimmed vocabulary it changes nothing |
| Pairs.ShortPair | chatbot.py:269-271 | `filterPair` holds exactly when each side has at most `MAX_LENGTH - 2` spaces, that is, fewer than `MAX_LENGTH` words |
| Pairs.FilterPairs | chatbot.py:269-276 | keeps, in order, exactly the pairs with fewer than `MAX_LENGTH` words on both sides, each as often as it occurs |
| Pairs.SentenceKnown | chatbot.py:326-335 | the early-exit word loop answers true exactly when every word of the sentence is in `word2index` |
| Pairs.KeepKnownPairs | chatbot.py:322-341 | keeps, in order, exactly the pairs both of whose sentences use only indexed words, each as often as it occurs |
| Pairs.TrimRareWords | chatbot.py:318-346 | the vocabulary is trimmed first, and the kept pairs are exactly those whose words all survive the trim, in their original order |
| Pairs.ExtractSentencePairs | chatbot.py:101-117 | every extracted pair has two non-empty sides, each already stripped |
| Pairs.ConversationPairsExact | chatbot.py:108-116 | a pair comes from a conversation exactly when it is lines i and i+1, stripped, with both sides non-empty |
| Pairs.ExtractExact | chatbot.py:101-117 | a pair is extracted exactly when it is two consecutive lines of some conversation, stripped, with both sides non-empty |
| Pairs.ExtractConcat | chatbot.py:106-117 | conversations contribute their pairs one after the other, in conversation order |
| Sorting.SortDesc | chatbot.py:459 | the sort returns a permutation of the batch whose keys never increase |
| Sorting.SortStable | chatbot.py:459 | pairs with equal keys keep their relative order (Python's sort is stable, also with `reverse=True`) |
| Sorting.SortSorted | chatbot.py:459 | a batch already in order is left unchanged |
| Batch.IndexesFromSentence | chatbot.py:387-393 | one index per space-separated word plus a final EOS, each the word's `word2index` entry; in a valid vocabulary no entry is PAD and all lie below `num_words` |
| Batch.IndexesRoundTrip | chatbot.py:387-393 | looking the indices (EOS removed) up in `index2word` and joining with spaces gives back the sentence |
| Batch.MaxLen | chatbot.py:441 | `max` of the lengths bounds every length and is attained by one of them |
| Batch.ZeroPadding | chatbot.py:396-402 | `zip_longest(*l, fillvalue)` has as many rows as the longest list and one column per list; column i is `l[i]` followed by fill values, so its first `len(l[i])` entries give `l[i]` back |
| Batch.BinaryMatrix | chatbot.py:405-414 | the mask has the ragged shape of its input, with 1 exactly where the token is not PAD and 0 exactly where it is |
| Batch.PadIndexes | chatbot.py:424-427 | padding the index lists yields a matrix whose column i is sentence i's index list followed by PAD, and whose height is the longest list |
| Batch.InputVar | chatbot.py:418-429 | `lengths[i]` is sentence i's word count plus one, and column i of the padded input holds exactly its index list followed by PAD |
| Batch.OutputVar | chatbot.py:433-446 | `max_target_len` is the padded height and the longest target's length; the mask is true exactly where the target is not PAD; with a valid vocabulary that is exactly the real positions, and every time step has a real token |
| Batch.MaskMarksTokens | chatbot.py:441-446 | since no word's index is PAD, the PAD mask of the padded targets marks exactly the positions below each target's length |
| Batch.BuildBatch | chatbot.py:461-466 | for a batch already in order, input and lengths come from the queries and target and mask from the responses, column by column; the lengths never increase and a batch of filtered pairs stays within `MAX_LENGTH` |
| Batch.Batch2TrainData | chatbot.py:450-466 | the batch is stably sorted by query word count, longest first; `lengths` are the sorted word counts plus one and never increase; each pair's query and response occupy the same column of input and target; the mask marks the real target tokens; batches of filtered pairs never exceed `MAX_LENGTH` |
| Inference.MakeAttn | chatbot.py:594-604 | only `dot`, `general` and `concat` are accepted; any other name raises a `ValueError` whose arguments are the name and the message; `general` gets an H-to-H layer, `concat` a 2H-to-H layer and an H-sized vector, `dot` neither |
| Inference.Decode | chatbot.py:890-899 | greedy decoding always yields exactly `max_length` tokens and scores and never stops early |
| Inference.DecodeSplit | chatbot.py:890-899 | decoding a+b steps is decoding a steps and then b more, started from the hidden state reached and fed the last token |
| Inference.GreedySearch | chatbot.py:879-901 | the decoding loop starts from SOS and feeds each chosen token back in; its tokens and scores are those of `max_length` greedy steps |
| Inference.ResponseWords | chatbot.py:934 | the reply keeps, in order, every decoded word except EOS and PAD, each as often as it occurs |
| Inference.Respond | chatbot.py:917-938 | `q` and `quit` exactly end the session; an unknown-word report comes exactly when the normalised line has a word `word2index` lacks or a decoded index has no `index2word` entry; otherwise the reply is the decoded indices' words with EOS and PAD removed, at most `max_length` of them |
| Inference.ReplyWhenKnown | chatbot.py:917-938 | with a valid vocabulary and a decoder emitting indices below `num_words`, a line of known words always gets a reply |
| Normalize.Lower | chatbot.py:250 | on ASCII text no capital is left, and the only characters changed are capitals, each to its small letter |
| Normalize.LowerKept | chatbot.py:250 | lower-casing keeps exactly the letters and punctuation where they were, and lower-casing twice changes nothing more |
| Normalize.SpacePunct | chatbot.py:251 | one character is added per `.`, `!` or `?`; the input character at `k` lands at `k` plus the number of marks up to and including it; every mark has a space right before it; letters and marks keep their order |
| Normalize.Squeeze | chatbot.py:252-253 | every character of the result is a space or an input character outside the class; no two class characters are adjacent; a leading run becomes a leading space and any other first character is kept |
| Normalize.SqueezeLast | chatbot.py:252-253 | at the other end likewise: a trailing run becomes one space at the end, and any other last character is kept |
| Normalize.SqueezeWords | chatbot.py:252-253 | when the replacement space belongs to the class, squeezing keeps the words (the maximal runs outside the class) exactly, in order: each run becomes one space and none vanishes |
| Normalize.NormalizeString | chatbot.py:249-254 | the result holds only lower-case letters, `.`, `!`, `?` and spaces, has no leading or trailing space, and never two spaces in a row |
| Normalize.NormalizeKeepsLetters | chatbot.py:249-254 | normalisation keeps every letter and punctuation mark of the lower-cased line, in order |
| Normalize.NormalizeWords | chatbot.py:249-254 | normalisation keeps word boundaries: the maximal runs of letters and punctuation in the result are those of the lower-cased line with a space put before every mark, so no two words are glued and none is split |
| Normalize.NormalizeSplit | chatbot.py:249-254 | a non-empty normalised line, split at spaces as `addSentence` and `indexesFromSentence` do, yields exactly those runs |

## Left out

- Neural networks and numerics are not modelled: `EncoderRNN`, `LuongAttnDecoderRNN`, the attention score functions and softmax, `maskNLLLoss`, `train`, `trainIters`, gradient clipping and the optimisers. They are floating-point tensor code inside PyTorch. The decoder step, the encoder and the normaliser enter `Inference.Respond` as parameters.
- Corpus and file I/O are not modelled: `printlines`, `loadLines`, `loadConversations`, writing the formatted CSV, and `readVocs`. A conversation enters `Pairs.ExtractSentencePairs` as its list of line texts.
- `loadPrepareData` is not modelled as a separate operation. It filters with `filterPairs` and then calls `addSentence` on both sides of every pair; both steps are modelled.
- Checkpoint saving and loading, `state_dict` handling and CUDA device placement are left out, because they are persistence and hardware.
- Random batch sampling (`random.choice`) and the teacher-forcing draw are left out, because they are randomness. `Batch.Batch2TrainData` takes the batch as given.
- `print` diagnostics are left out. The two that divide by a length become preconditions: `Vocabulary.Trim` needs a non-empty vocabulary on its first call, and `Pairs.TrimRareWords` needs at least one pair. The `trim` print rounds the numerator `len(keep_words)` instead of the ratio, which affects only the printed text.
- `unicodeToAscii` is not modelled, because it calls into `unicodedata`.
- Normalize.Lower: requires ASCII input, because Python's `lower()` also maps non-ASCII capitals and those tables are not modelled.
- Normalize.NormalizeString: requires ASCII input, because `unicodeToAscii` is left out. On ASCII text that function is the identity.
- Batch.Batch2TrainData: the source sorts the caller's list in place. The model returns the sorted list instead.
- Batch.OutputVar and Batch.Batch2TrainData: require a non-empty batch, because on an empty one `max([])` in `outputVar` raises a `ValueError` that the source does not catch.
- Tensor conversions (`torch.LongTensor`, `torch.BoolTensor`, `transpose`, `.to(device)`) are modelled as nested sequences. Integers are unbounded: every index is below the vocabulary size, so 64-bit overflow cannot occur.
- Vocabulary.Trim: requires the vocabulary invariant `Valid`, which every vocabulary built by `NewVoc`, `AddWord` and `AddSentence` satisfies.
- Inference.Respond: the interactive `input()` loop and its printing are not modelled; one call models one turn. The reply is the word list the loop prints; `Text.Join` models the join, and an empty list joins to the empty string.
- The batch's sort key is the query's word count. Each index list has one more entry (EOS), so the order is the same as by index-list length.
