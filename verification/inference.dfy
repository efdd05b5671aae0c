/** The discrete parts of using a trained model: choosing the attention
    method, the shape of greedy decoding, and turning decoded indices into
    a reply. The networks themselves are parameters. */
module Inference {
  import opened Text
  import opened Seqs
  import opened Vocabulary
  import opened Batch

  /** A value, or the arguments of the exception raised instead (Python's
      `e.args`). */
  datatype Outcome<T> = Success(value: T) | Failure(args: seq<string>)

  /** The three Luong attention score functions. */
  datatype AttnMethod = Dot | General | Concat

  /** The name the source uses for each method. */
  function MethodName(m: AttnMethod): string {
    match m
    case Dot => "dot"
    case General => "general"
    case Concat => "concat"
  }

  /** The shape of an `nn.Linear` layer. */
  datatype Linear = Linear(inFeatures: nat, outFeatures: nat)

  /** The learnable parts `Attn.__init__` creates: a linear layer for
      `general` and `concat`, and the vector `v` (its size) for `concat`. */
  datatype Attn = Attn(score: AttnMethod, hiddenSize: nat, attn: Option<Linear>, v: Option<nat>)

  /** An optional part. */
  datatype Option<T> = None | Some(value: T)

  /** `Attn.__init__`: rejects any method name but the three with a
      `ValueError` whose arguments are the name and a fixed message. */
  function MakeAttn(name: string, hiddenSize: nat): (r: Outcome<Attn>)
    ensures r.Success? <==> name in {"dot", "general", "concat"}
    ensures r.Success? ==> MethodName(r.value.score) == name && r.value.hiddenSize == hiddenSize
    ensures r.Success? && name == "general" ==> r.value.attn == Some(Linear(hiddenSize, hiddenSize)) && r.value.v == None
    ensures r.Success? && name == "concat" ==> r.value.attn == Some(Linear(2 * hiddenSize, hiddenSize)) && r.value.v == Some(hiddenSize)
    ensures r.Success? && name == "dot" ==> r.value.attn == None && r.value.v == None
    ensures r.Failure? ==> r.args == [name, "is not an appropriate attention method."]
  {
    if name == "dot" then Success(Attn(Dot, hiddenSize, None, None))
    else if name == "general" then Success(Attn(General, hiddenSize, Some(Linear(hiddenSize, hiddenSize)), None))
    else if name == "concat" then Success(Attn(Concat, hiddenSize, Some(Linear(2 * hiddenSize, hiddenSize)), Some(hiddenSize)))
    else Failure([name, "is not an appropriate attention method."])
  }

  /** Each method's name is accepted and gives back that method. */
  lemma MakeAttnNames(m: AttnMethod, hiddenSize: nat)
    ensures MakeAttn(MethodName(m), hiddenSize).Success?
    ensures MakeAttn(MethodName(m), hiddenSize).value.score == m
  {
  }

  /** What one decoder step produces: the next hidden state, the most
      likely token and its score. */
  datatype StepResult<H, Sc> = StepResult(hidden: H, token: int, score: Sc)

  /** Tokens and scores of a decoding run, and the hidden state after it. */
  datatype Decoded<H, Sc> = Decoded(tokens: seq<int>, scores: seq<Sc>, hidden: H)

  /** Greedy decoding of `n` tokens starting from `hidden`, feeding `input`
      first and each emitted token back in. It never stops early, EOS or
      not. */
  function Decode<H, Sc>(step: (H, int) -> StepResult<H, Sc>, hidden: H, input: int, n: nat): (r: Decoded<H, Sc>)
    ensures |r.tokens| == n && |r.scores| == n
    ensures n > 0 ==> r.tokens[0] == step(hidden, input).token && r.scores[0] == step(hidden, input).score
    decreases n
  {
    if n == 0 then Decoded([], [], hidden)
    else
      var o := step(hidden, input);
      var rest := Decode(step, o.hidden, o.token, n - 1);
      Decoded([o.token] + rest.tokens, [o.score] + rest.scores, rest.hidden)
  }

  /** Decoding `a + b` tokens is decoding `a`, then `b` more from where the
      first run stopped, fed its last token. */
  lemma {:induction false} DecodeSplit<H, Sc>(step: (H, int) -> StepResult<H, Sc>, hidden: H, input: int, a: nat, b: nat)
    requires a > 0
    ensures var first := Decode(step, hidden, input, a);
      var second := Decode(step, first.hidden, first.tokens[a - 1], b);
      Decode(step, hidden, input, a + b) == Decoded(first.tokens + second.tokens, first.scores + second.scores, second.hidden)
    decreases a
  {
    var o := step(hidden, input);
    if a > 1 {
      DecodeSplit(step, o.hidden, o.token, a - 1, b);
      var first := Decode(step, hidden, input, a);
      var rest := Decode(step, o.hidden, o.token, a - 1);
      assert first.tokens[a - 1] == rest.tokens[a - 2];
      assert first.hidden == rest.hidden;
    } else {
      var first := Decode(step, hidden, input, 1);
      assert first.tokens == [o.token] && first.scores == [o.score];
    }
  }

  /** `GreedySearchDecoder.forward` after the encoder: starting from SOS,
      `maxLength` decoder steps, each fed the token the previous one chose. */
  method GreedySearch<H, Sc>(step: (H, int) -> StepResult<H, Sc>, encoderHidden: H, maxLength: nat)
    returns (allTokens: seq<int>, allScores: seq<Sc>)
    ensures |allTokens| == maxLength && |allScores| == maxLength
    ensures var d := Decode(step, encoderHidden, SOS_TOKEN, maxLength);
      allTokens == d.tokens && allScores == d.scores
  {
    var decoderHidden := encoderHidden;
    var decoderInput: int := SOS_TOKEN;
    allTokens, allScores := [], [];
    var k := 0;
    while k < maxLength
      invariant 0 <= k <= maxLength
      invariant var d := Decode(step, encoderHidden, SOS_TOKEN, k);
        allTokens == d.tokens && allScores == d.scores && decoderHidden == d.hidden
      invariant decoderInput == if k == 0 then SOS_TOKEN as int else allTokens[k - 1]
    {
      var o := step(decoderHidden, decoderInput);
      if k > 0 {
        DecodeSplit(step, encoderHidden, SOS_TOKEN, k, 1);
      }
      decoderHidden := o.hidden;
      decoderInput := o.token;
      allTokens := allTokens + [o.token];
      allScores := allScores + [o.score];
      k := k + 1;
    }
  }

  /** Not a marker word. */
  predicate NotMarker(w: string) {
    !(w == "EOS" || w == "PAD")
  }

  /** The filter in `evaluateInput`: the decoded words without any EOS or
      PAD, every other word kept in order and as often as it occurs. */
  function ResponseWords(words: seq<string>): (r: seq<string>)
    ensures IsSubseq(r, words)
    ensures "EOS" !in r && "PAD" !in r
    ensures forall w :: w != "EOS" && w != "PAD" ==> multiset(r)[w] == multiset(words)[w]
  {
    var r := Filter(NotMarker, words);
    assert forall k :: 0 <= k < |r| ==> NotMarker(r[k]);
    r
  }

  /** `index2word` has an entry for token `t`. */
  predicate HasWord(v: Voc, t: int) {
    t >= 0 && t as nat in v.index2word
  }

  /** The outcome of one line typed at the prompt. */
  datatype Turn = Quit | UnknownWord | Reply(words: seq<string>)

  /** The tokens `evaluate` decodes for a normalised sentence of known
      words: its indices go through the encoder, then `maxLength` greedy
      steps follow. */
  function Tokens<H, Sc>(v: Voc, encode: seq<int> -> H, step: (H, int) -> StepResult<H, Sc>,
                         sentence: string, maxLength: nat): seq<int>
    requires Known(v, sentence)
  {
    Decode(step, encode(IndexesFromSentence(v, sentence)), SOS_TOKEN, maxLength).tokens
  }

  /** One round of `evaluateInput`: `q` or `quit` ends the session; the
      line is normalised (`normalize`), its words looked up, the encoder
      (`encode`) and `maxLength` greedy steps run, and the decoded indices
      turned back into words. A word or index either map lacks raises
      `KeyError`, which the source reports as an unknown word. */
  function Respond<H, Sc>(v: Voc, normalize: string -> string, encode: seq<int> -> H,
                          step: (H, int) -> StepResult<H, Sc>, line: string, maxLength: nat): (r: Turn)
    ensures r == Quit <==> line == "q" || line == "quit"
    ensures r == UnknownWord <==>
      && line != "q" && line != "quit"
      && (Known(v, normalize(line)) ==>
            exists k :: 0 <= k < maxLength && !HasWord(v, Tokens(v, encode, step, normalize(line), maxLength)[k]))
    ensures r.Reply? ==>
      && Known(v, normalize(line))
      && var tokens := Tokens(v, encode, step, normalize(line), maxLength);
         && (forall k :: 0 <= k < |tokens| ==> HasWord(v, tokens[k]))
         && r.words == ResponseWords(WordsOf(v, tokens))
    ensures r.Reply? ==> "EOS" !in r.words && "PAD" !in r.words
    ensures r.Reply? ==> |r.words| <= maxLength
  {
    if line == "q" || line == "quit" then Quit
    else
      var sentence := normalize(line);
      if !Known(v, sentence) then UnknownWord
      else
        var tokens := Tokens(v, encode, step, sentence, maxLength);
        if exists k :: 0 <= k < |tokens| && !HasWord(v, tokens[k]) then UnknownWord
        else Reply(ResponseWords(WordsOf(v, tokens)))
  }

  /** With a consistent vocabulary and a decoder whose tokens lie in
      `0 .. numWords - 1`, a line of known words always gets a reply. */
  lemma ReplyWhenKnown<H, Sc>(v: Voc, normalize: string -> string, encode: seq<int> -> H,
                              step: (H, int) -> StepResult<H, Sc>, line: string, maxLength: nat)
    requires Valid(v)
    requires forall h, t :: 0 <= step(h, t).token < v.numWords
    requires line != "q" && line != "quit"
    requires Known(v, normalize(line))
    ensures Respond(v, normalize, encode, step, line, maxLength).Reply?
  {
    var tokens := Decode(step, encode(IndexesFromSentence(v, normalize(line))), SOS_TOKEN, maxLength).tokens;
    forall k | 0 <= k < |tokens|
      ensures HasWord(v, tokens[k])
    {
      DecodedInRange(v, step, encode(IndexesFromSentence(v, normalize(line))), SOS_TOKEN, maxLength, k);
    }
  }

  /** Every token a decoder in range emits has a word. */
  lemma {:induction false} DecodedInRange<H, Sc>(v: Voc, step: (H, int) -> StepResult<H, Sc>, hidden: H, input: int, n: nat, k: nat)
    requires Valid(v)
    requires forall h, t :: 0 <= step(h, t).token < v.numWords
    requires k < n
    ensures var tokens := Decode(step, hidden, input, n).tokens;
      HasWord(v, tokens[k])
    decreases n
  {
    var o := step(hidden, input);
    if k > 0 {
      DecodedInRange(v, step, o.hidden, o.token, n - 1, k - 1);
    }
    assert Dense(v);
  }

  /** The words of a line the vocabulary does not know make it an unknown
      word, never a reply. */
  lemma UnknownWhenUnknown<H, Sc>(v: Voc, normalize: string -> string, encode: seq<int> -> H,
                                  step: (H, int) -> StepResult<H, Sc>, line: string, maxLength: nat)
    requires line != "q" && line != "quit"
    requires exists w :: w in Split(normalize(line)) && w !in v.word2index
    ensures Respond(v, normalize, encode, step, line, maxLength) == UnknownWord
  {
  }
}
