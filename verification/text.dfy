/** Whitespace handling and word splitting as the chatbot's preprocessing
    performs it: Python's `s.split(" ")`, `" ".join(words)` and `s.strip()`. */
module Text {
  import opened Seqs

  /** The characters Python's `str.isspace()` accepts; `str.strip()` removes
      them and the regular-expression class `\s` matches them. */
  predicate IsSpace(c: char) {
    var n := c as int;
    || n == 32 || 9 <= n <= 13 || 28 <= n <= 31
    || n == 0x85 || n == 0xA0 || n == 0x1680 || 0x2000 <= n <= 0x200A
    || n == 0x2028 || n == 0x2029 || n == 0x202F || n == 0x205F || n == 0x3000
  }

  /** Python's `s.split(" ")`: cuts at every single space, so two adjacent
      spaces yield an empty word and the empty string yields one empty word. */
  function Split(s: string): (words: seq<string>)
    ensures |words| > 0
    decreases |s|
  {
    if |s| == 0 then [""]
    else
      var rest := Split(s[1..]);
      if s[0] == ' ' then [""] + rest
      else [[s[0]] + rest[0]] + rest[1..]
  }

  /** `s.split(" ")` yields one more word than `s` has spaces, and no word
      contains a space. */
  lemma {:induction false} SplitWords(s: string)
    ensures |Split(s)| == 1 + multiset(s)[' ']
    ensures forall k :: 0 <= k < |Split(s)| ==> ' ' !in Split(s)[k]
    decreases |s|
  {
    if |s| > 0 {
      SplitWords(s[1..]);
      assert s == [s[0]] + s[1..];
      var rest := Split(s[1..]);
      if s[0] != ' ' {
        forall k | 0 <= k < |Split(s)|
          ensures ' ' !in Split(s)[k]
        {
          if k > 0 {
            assert Split(s)[k] == rest[k];
          }
        }
      }
    }
  }

  /** The number of space-separated words, `len(s.split(" "))`. */
  function WordCount(s: string): nat {
    |Split(s)|
  }

  /** Python's `" ".join(words)`; the empty list joins to the empty string. */
  function Join(words: seq<string>): string
    decreases |words|
  {
    if |words| == 0 then ""
    else if |words| == 1 then words[0]
    else words[0] + " " + Join(words[1..])
  }

  /** Joining the split words with single spaces gives back the sentence. */
  lemma {:induction false} JoinSplit(s: string)
    ensures Join(Split(s)) == s
    decreases |s|
  {
    if |s| > 0 {
      JoinSplit(s[1..]);
      JoinSplitCons(s[0], s[1..]);
      assert [s[0]] + s[1..] == s;
    }
  }

  /** The inductive step of `JoinSplit`: one more character in front. */
  lemma JoinSplitCons(c: char, t: string)
    requires Join(Split(t)) == t
    ensures Join(Split([c] + t)) == [c] + t
  {
    SplitCons(c, t);
    var rest := Split(t);
    if c == ' ' {
      JoinCons("", rest);
    } else {
      JoinGlue(c, rest);
    }
  }

  /** Gluing a character to the first word adds it in front of the join. */
  lemma JoinGlue(c: char, words: seq<string>)
    requires |words| > 0
    ensures Join([[c] + words[0]] + words[1..]) == [c] + Join(words)
  {
    if |words| > 1 {
      JoinCons([c] + words[0], words[1..]);
      JoinCons(words[0], words[1..]);
      assert words == [words[0]] + words[1..];
      Regroup([c] + words[0], " ", Join(words[1..]));
      Regroup([c], words[0], " " + Join(words[1..]));
      Regroup(words[0], " ", Join(words[1..]));
    } else {
      assert words == [words[0]];
    }
  }

  /** One unfolding of `Split` on a string with a first character. */
  lemma SplitCons(c: char, t: string)
    ensures Split([c] + t) == if c == ' ' then [""] + Split(t) else [[c] + Split(t)[0]] + Split(t)[1..]
  {
    assert ([c] + t)[0] == c && ([c] + t)[1..] == t;
  }

  /** One unfolding of `Join` on a list of at least two words. */
  lemma JoinCons(w: string, rest: seq<string>)
    requires |rest| > 0
    ensures Join([w] + rest) == w + " " + Join(rest)
  {
    assert ([w] + rest)[1..] == rest;
  }

  /** Splitting a word free of spaces in front of `rest` glues it to the
      first word of `rest`. */
  lemma {:induction false} SplitPrefix(w: string, rest: string)
    requires ' ' !in w
    ensures Split(w + rest) == [w + Split(rest)[0]] + Split(rest)[1..]
    decreases |w|
  {
    var sr := Split(rest);
    if |w| > 0 {
      var tail := w[1..] + rest;
      HeadAppend(w, rest);
      SplitCons(w[0], tail);
      SplitPrefix(w[1..], rest);
      HeadAppend(w, sr[0]);
    } else {
      assert w + rest == rest;
      assert w + sr[0] == sr[0];
      assert sr == [sr[0]] + sr[1..];
    }
  }

  /** Splitting words joined by single spaces gives back the words, provided
      no word itself contains a space. */
  lemma {:induction false} SplitJoin(words: seq<string>)
    requires |words| > 0
    requires forall k :: 0 <= k < |words| ==> ' ' !in words[k]
    ensures Split(Join(words)) == words
    decreases |words|
  {
    if |words| == 1 {
      SplitPrefix(words[0], "");
      assert words[0] + "" == words[0];
    } else {
      var tail := Join(words[1..]);
      SplitJoin(words[1..]);
      JoinCons(words[0], words[1..]);
      assert words == [words[0]] + words[1..];
      assert Join(words) == words[0] + (" " + tail);
      SplitPrefix(words[0], " " + tail);
      assert " " + tail == [' '] + tail;
      SplitCons(' ', tail);
      assert words[0] + "" == words[0];
    }
  }

  /** Number of whitespace characters at the start of `s`. */
  function Lead(s: string): (n: nat)
    ensures n <= |s|
    ensures forall k :: 0 <= k < n ==> IsSpace(s[k])
    ensures n < |s| ==> !IsSpace(s[n])
    decreases |s|
  {
    if |s| > 0 && IsSpace(s[0]) then 1 + Lead(s[1..]) else 0
  }

  /** Number of whitespace characters at the end of `s`. */
  function Trail(s: string): (n: nat)
    ensures n <= |s|
    ensures forall k :: |s| - n <= k < |s| ==> IsSpace(s[k])
    ensures n < |s| ==> !IsSpace(s[|s| - 1 - n])
    decreases |s|
  {
    if |s| > 0 && IsSpace(s[|s| - 1]) then 1 + Trail(s[..|s| - 1]) else 0
  }

  /** Python's `s.strip()`: the infix of `s` left after removing whitespace
      from both ends. */
  function Strip(s: string): (r: string)
    ensures |r| <= |s|
    ensures r == [] <==> forall k :: 0 <= k < |s| ==> IsSpace(s[k])
    ensures r != [] ==> !IsSpace(r[0]) && !IsSpace(r[|r| - 1])
    ensures forall k :: 0 <= k < |r| ==> r[k] in s
    ensures Lead(s) + |r| <= |s| && r == s[Lead(s)..Lead(s) + |r|]
    ensures forall k :: Lead(s) + |r| <= k < |s| ==> IsSpace(s[k])
  {
    if Lead(s) == |s| then []
    else
      LeadBeforeTrail(s);
      s[Lead(s)..|s| - Trail(s)]
  }

  /** When `s` is not all whitespace, its first non-space comes no later
      than its last one. */
  lemma LeadBeforeTrail(s: string)
    requires Lead(s) < |s|
    ensures Lead(s) < |s| - Trail(s)
  {
    assert !IsSpace(s[Lead(s)]);
  }

  /** Stripping twice strips nothing more. */
  lemma StripIdempotent(s: string)
    ensures Strip(Strip(s)) == Strip(s)
  {
    var r := Strip(s);
    if r != [] {
      assert Lead(r) == 0;
      assert r[0..] == r;
      assert Trail(r) == 0;
    }
  }
}
