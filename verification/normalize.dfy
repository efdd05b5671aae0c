/** `normalizeString` for ASCII input: lower-case, strip, put a space before
    every `.`, `!` and `?`, turn every other run of non-letters into one space, then
    squeeze whitespace and strip again. On ASCII text `unicodeToAscii`
    changes nothing, so it does not appear here. */
module Normalize {
  import opened Text
  import opened Seqs

  /** Every character is 7-bit ASCII. */
  predicate Ascii(s: string) {
    forall k :: 0 <= k < |s| ==> s[k] as int < 128
  }

  /** `c.lower()` on an ASCII character. */
  function LowerChar(c: char): char {
    if 'A' <= c <= 'Z' then (c as int + 32) as char else c
  }

  /** `s.lower()` on ASCII text: no capital is left, and the only
      characters changed are capitals, each moved to its small letter. */
  function Lower(s: string): (r: string)
    requires Ascii(s)
    ensures |r| == |s| && Ascii(r)
    ensures forall k :: 0 <= k < |r| ==> !('A' <= r[k] <= 'Z')
    ensures forall k :: 0 <= k < |s| && r[k] != s[k] ==> 'A' <= s[k] <= 'Z' && r[k] as int == s[k] as int + 32
  {
    seq(|s|, k requires 0 <= k < |s| => LowerChar(s[k]))
  }

  /** Lower-casing keeps exactly the letters and punctuation where they
      were, and a second lower-casing changes nothing. */
  lemma LowerKept(s: string)
    requires Ascii(s)
    ensures forall k :: 0 <= k < |s| ==> (Kept(Lower(s)[k]) <==> Kept(s[k]))
    ensures Lower(Lower(s)) == Lower(s)
  {
    var r := Lower(s);
    forall k | 0 <= k < |s|
      ensures Kept(r[k]) <==> Kept(s[k])
    {
      if r[k] != s[k] {
        assert 'a' <= r[k] <= 'z';
      }
    }
  }

  /** Sentence punctuation, the class `[.!?]`. */
  predicate Punct(c: char) {
    c == '.' || c == '!' || c == '?'
  }

  /** A character the class `[a-zA-Z.!?]` accepts. */
  predicate Kept(c: char) {
    'a' <= c <= 'z' || 'A' <= c <= 'Z' || Punct(c)
  }

  /** A character the output may hold: a lower-case letter, punctuation or
      a space. */
  predicate OutputChar(c: char) {
    'a' <= c <= 'z' || Punct(c) || c == ' '
  }

  /** The number of punctuation marks in `s`. */
  function PunctCount(s: string): nat {
    multiset(s)['.'] + multiset(s)['!'] + multiset(s)['?']
  }

  /** Where the substitution puts the character at `k`: one place further
      right for every mark up to and including it. */
  function Landing(s: string, k: nat): nat
    requires k < |s|
  {
    k + PunctCount(s[..k + 1])
  }

  /** What the substitution makes of one character: a punctuation mark
      gets a space in front, anything else stays. */
  function Spaced(c: char): string {
    if Punct(c) then [' ', c] else [c]
  }

  /** `re.sub(r"([.!?])", r" \1", s)`: a space in front of every
      punctuation mark. Exactly one character is added per mark, every
      mark has a space before it, and the character at `k` moves right by
      the number of marks up to and including it, so only those spaces are
      inserted and nothing else moves. */
  function SpacePunct(s: string): (r: string)
    ensures |r| == |s| + PunctCount(s)
    ensures forall k :: 0 <= k < |s| ==> Landing(s, k) < |r| && r[Landing(s, k)] == s[k]
    ensures forall k :: 0 <= k < |r| && Punct(r[k]) ==> k > 0 && r[k - 1] == ' '
    ensures forall k :: 0 <= k < |r| ==> r[k] == ' ' || r[k] in s
    ensures Letters(r) == Letters(s)
  {
    SpacedLength(s);
    SpacedPlace(s);
    SpacedChars(s);
    SpacedLetters(s);
    FlatMap(Spaced, s)
  }

  /** Every character of `s` lands where `SpacePunct` says. */
  lemma SpacedPlace(s: string)
    ensures forall k :: 0 <= k < |s| ==>
      Landing(s, k) < |FlatMap(Spaced, s)| && FlatMap(Spaced, s)[Landing(s, k)] == s[k]
  {
    forall k | 0 <= k < |s|
      ensures Landing(s, k) < |FlatMap(Spaced, s)|
      ensures FlatMap(Spaced, s)[Landing(s, k)] == s[k]
    {
      SpacedPlaceAt(s, k);
    }
  }

  /** The character at `k` lands after the substitution of `s[..k]`
      followed by its own space, if it is a mark. */
  lemma SpacedPlaceAt(s: string, k: nat)
    requires k < |s|
    ensures Landing(s, k) < |FlatMap(Spaced, s)|
    ensures FlatMap(Spaced, s)[Landing(s, k)] == s[k]
  {
    var front := s[..k + 1];
    assert s == front + s[k + 1..];
    FlatMapConcat(Spaced, front, s[k + 1..]);
    SpacedLength(front);
    assert front[..k] == s[..k];
    assert FlatMap(Spaced, front) == FlatMap(Spaced, s[..k]) + Spaced(s[k]);
  }

  /** The substitution adds one character per punctuation mark. */
  lemma {:induction false} SpacedLength(s: string)
    ensures |FlatMap(Spaced, s)| == |s| + PunctCount(s)
    decreases |s|
  {
    if |s| > 0 {
      var init, last := s[..|s| - 1], s[|s| - 1];
      SpacedLength(init);
      assert s == init + [last];
      assert multiset(s) == multiset(init) + multiset{last};
    }
  }

  /** After the substitution every character is a space or one of `s`, and
      every punctuation mark follows a space. */
  lemma {:induction false} SpacedChars(s: string)
    ensures forall k :: 0 <= k < |FlatMap(Spaced, s)| && Punct(FlatMap(Spaced, s)[k]) ==>
      k > 0 && FlatMap(Spaced, s)[k - 1] == ' '
    ensures forall k :: 0 <= k < |FlatMap(Spaced, s)| ==>
      FlatMap(Spaced, s)[k] == ' ' || FlatMap(Spaced, s)[k] in s
    decreases |s|
  {
    if |s| > 0 {
      var init, last := s[..|s| - 1], s[|s| - 1];
      var r0 := FlatMap(Spaced, init);
      var tail := Spaced(last);
      var r := r0 + tail;
      SpacedChars(init);
      assert r == FlatMap(Spaced, s);
      forall k | 0 <= k < |r|
        ensures r[k] == ' ' || r[k] in s
        ensures Punct(r[k]) ==> k > 0 && r[k - 1] == ' '
      {
        if k < |r0| {
          assert r[k] == r0[k];
          if k > 0 {
            assert r[k - 1] == r0[k - 1];
          }
          if r[k] != ' ' {
            var j :| 0 <= j < |init| && init[j] == r[k];
            assert s[j] == r[k];
          }
        } else {
          assert r[k] == tail[k - |r0|];
        }
      }
    }
  }

  /** The substitution keeps the letters and marks in order. */
  lemma {:induction false} SpacedLetters(s: string)
    ensures Letters(FlatMap(Spaced, s)) == Letters(s)
    decreases |s|
  {
    if |s| > 0 {
      var init, last := s[..|s| - 1], s[|s| - 1];
      SpacedLetters(init);
      assert s == init + [last];
      LettersAppend(FlatMap(Spaced, init), Spaced(last));
      LettersAppend(init, [last]);
      assert Punct(last) ==> [' ', last][1..] == [last];
    }
  }

  /** Length of the run of `p`-characters at the start of `s`. */
  function RunLength(p: char -> bool, s: string): (n: nat)
    ensures n <= |s|
    ensures forall k :: 0 <= k < n ==> p(s[k])
    ensures n < |s| ==> !p(s[n])
    decreases |s|
  {
    if |s| > 0 && p(s[0]) then 1 + RunLength(p, s[1..]) else 0
  }

  /** `re.sub(r"<class>+", " ", s)`: every maximal run of characters
      satisfying `p` becomes a single space. */
  function Squeeze(p: char -> bool, s: string): (r: string)
    ensures forall k :: 0 <= k < |r| ==> r[k] == ' ' || (r[k] in s && !p(r[k]))
    ensures forall k :: 0 <= k < |r| - 1 ==> p(r[k]) ==> !p(r[k + 1])
    ensures |s| > 0 ==> |r| > 0 && r[0] == if p(s[0]) then ' ' else s[0]
    decreases |s|
  {
    if |s| == 0 then ""
    else
      var n := RunLength(p, s);
      var next := if n > 0 then n else 1;
      var rest := Squeeze(p, s[next..]);
      assert forall k :: 0 <= k < |rest| ==> rest[k] in s[next..] ==> rest[k] in s;
      if n > 0 then " " + rest else [s[0]] + rest
  }

  /** The last character of the result mirrors the first: a trailing run
      leaves one space at the end, and any other last character is kept. */
  lemma {:induction false} SqueezeLast(p: char -> bool, s: string)
    requires |s| > 0
    ensures |Squeeze(p, s)| > 0
    ensures Squeeze(p, s)[|Squeeze(p, s)| - 1] == if p(s[|s| - 1]) then ' ' else s[|s| - 1]
    decreases |s|
  {
    var n := RunLength(p, s);
    var next := if n > 0 then n else 1;
    if next < |s| {
      SqueezeLast(p, s[next..]);
      assert s[next..][|s| - next - 1] == s[|s| - 1];
    }
  }

  /** The class `[^a-zA-Z.!?]`. */
  predicate NotKept(c: char) {
    !Kept(c)
  }

  /** The first three rewrites of `normalizeString`, before the final strip. */
  function Squeezed(s: string): string
    requires Ascii(s)
  {
    Squeeze(IsSpace, Squeeze(NotKept, SpacePunct(Strip(Lower(s)))))
  }

  /** On ASCII text the rewrites leave only lower-case letters, punctuation
      and spaces. */
  lemma SqueezedChars(s: string)
    requires Ascii(s)
    ensures forall k :: 0 <= k < |Squeezed(s)| ==> OutputChar(Squeezed(s)[k])
  {
    var lowered := Strip(Lower(s));
    var spaced := SpacePunct(lowered);
    var words := Squeeze(NotKept, spaced);
    var squeezed := Squeeze(IsSpace, words);
    forall k | 0 <= k < |squeezed|
      ensures OutputChar(squeezed[k])
    {
      var c := squeezed[k];
      if c != ' ' {
        assert c in words && c != ' ';
        assert c in spaced && Kept(c);
        assert c in lowered;
        var j :| 0 <= j < |Lower(s)| && Lower(s)[j] == c;
        assert s[j] as int < 128;
      }
    }
  }

  /** No space follows a space once whitespace is squeezed. */
  lemma SqueezedSingleSpaces(s: string)
    requires Ascii(s)
    ensures forall k :: 0 <= k < |Squeezed(s)| - 1 ==> !(Squeezed(s)[k] == ' ' && Squeezed(s)[k + 1] == ' ')
  {
    var squeezed := Squeezed(s);
    forall k | 0 <= k < |squeezed| - 1
      ensures !(squeezed[k] == ' ' && squeezed[k + 1] == ' ')
    {
      assert IsSpace(squeezed[k]) ==> !IsSpace(squeezed[k + 1]);
    }
  }

  /** `normalizeString` on ASCII text. */
  function NormalizeString(s: string): (r: string)
    requires Ascii(s)
    ensures forall k :: 0 <= k < |r| ==> OutputChar(r[k])
    ensures r == [] || (r[0] != ' ' && r[|r| - 1] != ' ')
    ensures forall k :: 0 <= k < |r| - 1 ==> !(r[k] == ' ' && r[k + 1] == ' ')
  {
    var squeezed := Squeezed(s);
    SqueezedChars(s);
    SqueezedSingleSpaces(s);
    StripInfix(squeezed);
    Strip(squeezed)
  }

  /** The result of `Strip` is an infix, so it inherits any property of
      neighbouring characters. */
  lemma StripInfix(s: string)
    ensures forall k :: 0 <= k < |Strip(s)| ==> Strip(s)[k] == s[Lead(s) + k]
  {
  }

  /** The letters and punctuation of `s`, in order: what normalisation
      must not lose. */
  function Letters(s: string): (r: string)
    ensures |r| <= |s|
    decreases |s|
  {
    if |s| == 0 then ""
    else (if Kept(s[0]) then [s[0]] else "") + Letters(s[1..])
  }

  /** `Letters` distributes over concatenation. */
  lemma {:induction false} LettersAppend(a: string, b: string)
    ensures Letters(a + b) == Letters(a) + Letters(b)
    decreases |a|
  {
    if |a| == 0 {
      assert a + b == b;
    } else {
      var head: string := if Kept(a[0]) then [a[0]] else "";
      assert (a + b)[0] == a[0];
      assert (a + b)[1..] == a[1..] + b;
      LettersAppend(a[1..], b);
      calc {
        Letters(a + b);
        head + Letters(a[1..] + b);
        head + (Letters(a[1..]) + Letters(b));
        (head + Letters(a[1..])) + Letters(b);
        Letters(a) + Letters(b);
      }
    }
  }

  /** Text without letters or punctuation contributes nothing. */
  lemma {:induction false} LettersNone(s: string)
    requires forall k :: 0 <= k < |s| ==> !Kept(s[k])
    ensures Letters(s) == ""
    decreases |s|
  {
    if |s| > 0 {
      LettersNone(s[1..]);
    }
  }

  /** Whitespace is neither a letter nor punctuation. */
  lemma SpaceNotKept(c: char)
    requires IsSpace(c)
    ensures !Kept(c)
  {
  }

  /** Stripping removes only whitespace, never a letter. */
  lemma LettersStrip(s: string)
    ensures Letters(Strip(s)) == Letters(s)
  {
    var r := Strip(s);
    var i := Lead(s);
    var j := i + |r|;
    var front, back := s[..i], s[j..];
    ThreeParts(s, i, j);
    forall k | 0 <= k < |front|
      ensures !Kept(front[k])
    {
      SpaceNotKept(s[k]);
    }
    forall k | 0 <= k < |back|
      ensures !Kept(back[k])
    {
      SpaceNotKept(s[j + k]);
    }
    LettersAppend(front + r, back);
    LettersAppend(front, r);
    LettersNone(front);
    LettersNone(back);
  }

  /** Squeezing runs of non-letters keeps every letter. */
  lemma {:induction false} LettersSqueeze(p: char -> bool, s: string)
    requires forall c :: p(c) ==> !Kept(c)
    ensures Letters(Squeeze(p, s)) == Letters(s)
    decreases |s|
  {
    if |s| > 0 {
      if p(s[0]) {
        LettersSqueeze(p, s[RunLength(p, s)..]);
        LettersRunStep(p, s);
      } else {
        LettersSqueeze(p, s[1..]);
        LettersCharStep(p, s[0], s[1..]);
        assert s == [s[0]] + s[1..];
      }
    }
  }

  /** The step of `LettersSqueeze` at a run of class characters. */
  lemma LettersRunStep(p: char -> bool, s: string)
    requires forall c :: p(c) ==> !Kept(c)
    requires |s| > 0 && p(s[0])
    requires var n := RunLength(p, s); Letters(Squeeze(p, s[n..])) == Letters(s[n..])
    ensures Letters(Squeeze(p, s)) == Letters(s)
  {
    var n := RunLength(p, s);
    SqueezeRun(p, s);
    LettersSpace(Squeeze(p, s[n..]));
    LettersSkip(s, n);
  }

  /** The step of `LettersSqueeze` at a character outside the class. */
  lemma LettersCharStep(p: char -> bool, c: char, t: string)
    requires !p(c)
    requires Letters(Squeeze(p, t)) == Letters(t)
    ensures Letters(Squeeze(p, [c] + t)) == Letters([c] + t)
  {
    SqueezeCons(p, c, t);
    LettersAppend([c], Squeeze(p, t));
    LettersAppend([c], t);
  }

  /** A leading space holds no letter. */
  lemma LettersSpace(x: string)
    ensures Letters(" " + x) == Letters(x)
  {
    assert (" " + x)[1..] == x;
  }

  /** A leading run without letters or marks contributes nothing. */
  lemma LettersSkip(s: string, n: nat)
    requires n <= |s|
    requires forall k :: 0 <= k < n ==> !Kept(s[k])
    ensures Letters(s) == Letters(s[n..])
  {
    var run := s[..n];
    assert forall k :: 0 <= k < n ==> run[k] == s[k];
    TwoParts(s, n);
    LettersAppend(run, s[n..]);
    LettersNone(run);
  }

  /** Normalisation loses no letter or punctuation mark of the lower-cased
      text, and changes none of their order. */
  lemma NormalizeKeepsLetters(s: string)
    requires Ascii(s)
    ensures Letters(NormalizeString(s)) == Letters(Lower(s))
  {
    var lowered := Strip(Lower(s));
    var spaced := SpacePunct(lowered);
    var words := Squeeze(NotKept, spaced);
    var squeezed := Squeeze(IsSpace, words);
    assert NormalizeString(s) == Strip(squeezed);
    forall c | IsSpace(c)
      ensures !Kept(c)
    {
      SpaceNotKept(c);
    }
    LettersStrip(Lower(s));
    LettersSqueeze(NotKept, spaced);
    LettersSqueeze(IsSpace, words);
    LettersStrip(squeezed);
  }

  /** Length of the run of characters outside the class `p` at the start
      of `s`: `RunLength` of the complement of `p`. It is written out
      rather than as `RunLength(c => !p(c), s)` so that proofs about
      `Words` unfold it without reasoning about a lambda. */
  function WordLength(p: char -> bool, s: string): (n: nat)
    ensures n <= |s|
    ensures forall k :: 0 <= k < n ==> !p(s[k])
    ensures n < |s| ==> p(s[n])
    decreases |s|
  {
    if |s| > 0 && !p(s[0]) then 1 + WordLength(p, s[1..]) else 0
  }

  /** The words of `s` that the class `p` separates: its maximal runs of
      characters outside the class, in order. */
  function Words(p: char -> bool, s: string): seq<string>
    decreases |s|
  {
    if |s| == 0 then []
    else if p(s[0]) then Words(p, s[1..])
    else
      var n := WordLength(p, s);
      [s[..n]] + Words(p, s[n..])
  }

  /** A run of class characters holds no word. */
  lemma {:induction false} WordsNone(p: char -> bool, s: string)
    requires forall k :: 0 <= k < |s| ==> p(s[k])
    ensures Words(p, s) == []
    decreases |s|
  {
    if |s| > 0 {
      WordsNone(p, s[1..]);
    }
  }

  /** A word that ends inside `a`, or where `b` starts with a class
      character, ends at the same place in `a + b`. */
  lemma {:induction false} WordLengthAppend(p: char -> bool, a: string, b: string)
    requires WordLength(p, a) < |a| || |b| == 0 || p(b[0])
    ensures WordLength(p, a + b) == WordLength(p, a)
    decreases |a|
  {
    if |a| == 0 {
      assert a + b == b;
    } else if !p(a[0]) {
      assert (a + b)[1..] == a[1..] + b;
      WordLengthAppend(p, a[1..], b);
    }
  }

  /** Words do not straddle a class character: when one sits at the seam,
      the words of `a + b` are those of `a` followed by those of `b`. */
  lemma {:induction false} WordsAppend(p: char -> bool, a: string, b: string)
    requires |a| == 0 || |b| == 0 || p(a[|a| - 1]) || p(b[0])
    ensures Words(p, a + b) == Words(p, a) + Words(p, b)
    decreases |a|
  {
    if |a| == 0 {
      assert a + b == b;
    } else if p(a[0]) {
      SliceAppend(a, b, 1);
      WordsAppend(p, a[1..], b);
    } else {
      var n := WordLength(p, a);
      WordLengthAppend(p, a, b);
      SliceAppend(a, b, n);
      WordsAppend(p, a[n..], b);
    }
  }

  /** Class characters around `m` add no word. */
  lemma WordsAround(p: char -> bool, a: string, m: string, b: string)
    requires forall k :: 0 <= k < |a| ==> p(a[k])
    requires forall k :: 0 <= k < |b| ==> p(b[k])
    ensures Words(p, a + m + b) == Words(p, m)
  {
    WordsAppend(p, m, b);
    WordsAppend(p, a, m + b);
    WordsNone(p, a);
    WordsNone(p, b);
    Regroup(a, m, b);
  }

  /** When whitespace belongs to the class, stripping keeps every word. */
  lemma WordsStrip(p: char -> bool, s: string)
    requires forall c :: IsSpace(c) ==> p(c)
    ensures Words(p, Strip(s)) == Words(p, s)
  {
    var r := Strip(s);
    var i := Lead(s);
    var j := i + |r|;
    ThreeParts(s, i, j);
    WordsAround(p, s[..i], r, s[j..]);
  }

  /** One unfolding of `Squeeze` on a string starting outside the class. */
  lemma SqueezeCons(p: char -> bool, c: char, t: string)
    requires !p(c)
    ensures Squeeze(p, [c] + t) == [c] + Squeeze(p, t)
  {
    assert ([c] + t)[0] == c && ([c] + t)[1..] == t;
  }

  /** Squeezing passes a word through unchanged. */
  lemma {:induction false} SqueezeWord(p: char -> bool, w: string, t: string)
    requires forall k :: 0 <= k < |w| ==> !p(w[k])
    ensures Squeeze(p, w + t) == w + Squeeze(p, t)
    decreases |w|
  {
    if |w| == 0 {
      assert w + t == t;
    } else {
      var rest := Squeeze(p, t);
      HeadAppend(w, t);
      SqueezeCons(p, w[0], w[1..] + t);
      SqueezeWord(p, w[1..], t);
      HeadAppend(w, rest);
    }
  }

  /** Squeezing keeps every word and puts one space between neighbours:
      each run of class characters becomes one space, none vanishes. */
  lemma {:induction false} SqueezeWords(p: char -> bool, s: string)
    requires p(' ')
    ensures Words(p, Squeeze(p, s)) == Words(p, s)
    decreases |s|
  {
    if |s| > 0 {
      if p(s[0]) {
        SqueezeWords(p, s[RunLength(p, s)..]);
        SqueezeRunStep(p, s);
      } else {
        SqueezeWords(p, s[WordLength(p, s)..]);
        SqueezeWordSplit(p, s);
      }
    }
  }

  /** The step of `SqueezeWords` for a string that starts with a word. */
  lemma SqueezeWordSplit(p: char -> bool, s: string)
    requires p(' ') && |s| > 0 && !p(s[0])
    requires var m := WordLength(p, s); Words(p, Squeeze(p, s[m..])) == Words(p, s[m..])
    ensures Words(p, Squeeze(p, s)) == Words(p, s)
  {
    var m := WordLength(p, s);
    var w, t := s[..m], s[m..];
    assert forall k :: 0 <= k < m ==> w[k] == s[k];
    assert m < |s| ==> t[0] == s[m];
    TwoParts(s, m);
    SqueezeWordStep(p, w, t);
  }

  /** The step of `SqueezeWords` at a run of class characters: it becomes
      one space, which holds no word. */
  lemma SqueezeRunStep(p: char -> bool, s: string)
    requires p(' ') && |s| > 0 && p(s[0])
    requires var n := RunLength(p, s); Words(p, Squeeze(p, s[n..])) == Words(p, s[n..])
    ensures Words(p, Squeeze(p, s)) == Words(p, s)
  {
    var n := RunLength(p, s);
    SqueezeRun(p, s);
    WordsSpace(p, Squeeze(p, s[n..]));
    WordsRun(p, s, n);
  }

  /** One unfolding of `Squeeze` at a run of class characters. */
  lemma SqueezeRun(p: char -> bool, s: string)
    requires |s| > 0 && p(s[0])
    ensures Squeeze(p, s) == " " + Squeeze(p, s[RunLength(p, s)..])
  {
  }

  /** A leading class character holds no word. */
  lemma WordsSpace(p: char -> bool, x: string)
    requires p(' ')
    ensures Words(p, " " + x) == Words(p, x)
  {
    assert (" " + x)[1..] == x;
  }

  /** A leading run of class characters holds no word. */
  lemma WordsRun(p: char -> bool, s: string, n: nat)
    requires n <= |s|
    requires forall k :: 0 <= k < n ==> p(s[k])
    ensures Words(p, s) == Words(p, s[n..])
  {
    var run := s[..n];
    assert forall k :: 0 <= k < n ==> run[k] == s[k];
    TwoParts(s, n);
    WordsAppend(p, run, s[n..]);
    WordsNone(p, run);
  }

  /** The step of `SqueezeWords` at a word: it passes through, followed by
      the squeezed rest, which starts at a class character. */
  lemma SqueezeWordStep(p: char -> bool, w: string, t: string)
    requires p(' ')
    requires forall k :: 0 <= k < |w| ==> !p(w[k])
    requires |t| == 0 || p(t[0])
    requires Words(p, Squeeze(p, t)) == Words(p, t)
    ensures Words(p, Squeeze(p, w + t)) == Words(p, w + t)
  {
    var rest := Squeeze(p, t);
    assert |rest| == 0 || rest[0] == ' ';
    SqueezeWord(p, w, t);
    WordsAppend(p, w, rest);
    WordsAppend(p, w, t);
  }

  /** Squeezing text whose class characters are single spaces changes
      nothing. */
  lemma {:induction false} SqueezeIdle(p: char -> bool, s: string)
    requires forall k :: 0 <= k < |s| ==> p(s[k]) ==> s[k] == ' '
    requires forall k :: 0 <= k < |s| - 1 ==> p(s[k]) ==> !p(s[k + 1])
    ensures Squeeze(p, s) == s
    decreases |s|
  {
    if |s| > 0 {
      SqueezeIdle(p, s[1..]);
      assert s == [s[0]] + s[1..];
      if p(s[0]) {
        assert |s| > 1 ==> !p(s[1..][0]);
        assert RunLength(p, s[1..]) == 0;
      }
    }
  }

  /** `SpacePunct` works character by character. */
  lemma SpacePunctAppend(a: string, b: string)
    ensures SpacePunct(a + b) == SpacePunct(a) + SpacePunct(b)
  {
    FlatMapConcat(Spaced, a, b);
  }

  /** Text without punctuation is left as it is. */
  lemma {:induction false} SpacePunctNone(s: string)
    requires forall k :: 0 <= k < |s| ==> !Punct(s[k])
    ensures FlatMap(Spaced, s) == s
    decreases |s|
  {
    if |s| > 0 {
      SpacePunctNone(s[..|s| - 1]);
      assert s == s[..|s| - 1] + [s[|s| - 1]];
    }
  }

  /** The whitespace squeeze of `normalizeString` changes nothing: after
      the first squeeze every whitespace character is a lone space. */
  lemma SqueezedIdle(s: string)
    requires Ascii(s)
    ensures Squeezed(s) == Squeeze(NotKept, SpacePunct(Strip(Lower(s))))
  {
    var words := Squeeze(NotKept, SpacePunct(Strip(Lower(s))));
    forall k | 0 <= k < |words| && IsSpace(words[k])
      ensures words[k] == ' '
    {
      SpaceNotKept(words[k]);
    }
    forall k | 0 <= k < |words| - 1 && IsSpace(words[k])
      ensures !IsSpace(words[k + 1])
    {
      SpaceNotKept(words[k]);
    }
    SqueezeIdle(IsSpace, words);
  }

  /** Putting a space before every mark, before or after stripping, gives
      the same words, since stripping removes only whitespace. */
  lemma SpacePunctStrip(x: string)
    ensures Words(NotKept, SpacePunct(Strip(x))) == Words(NotKept, SpacePunct(x))
  {
    var stripped := Strip(x);
    var i := Lead(x);
    var j := i + |stripped|;
    var front, back := x[..i], x[j..];
    ThreeParts(x, i, j);
    SpacePunctAppend(front + stripped, back);
    SpacePunctAppend(front, stripped);
    forall k | 0 <= k < |front|
      ensures !Punct(front[k]) && NotKept(front[k])
    {
      SpaceNotKept(x[k]);
    }
    forall k | 0 <= k < |back|
      ensures !Punct(back[k]) && NotKept(back[k])
    {
      SpaceNotKept(x[j + k]);
    }
    SpacePunctNone(front);
    SpacePunctNone(back);
    WordsAround(NotKept, front, SpacePunct(stripped), back);
  }

  /** Normalisation keeps the word boundaries: the words of the result,
      its maximal runs of letters and punctuation, are those of the
      lower-cased line with a space put before every punctuation mark. Two words
      are never glued together and no word is split. */
  lemma NormalizeWords(s: string)
    requires Ascii(s)
    ensures Words(NotKept, NormalizeString(s)) == Words(NotKept, SpacePunct(Lower(s)))
  {
    var spaced := SpacePunct(Strip(Lower(s)));
    SqueezedIdle(s);
    forall c | IsSpace(c)
      ensures NotKept(c)
    {
      SpaceNotKept(c);
    }
    WordsStrip(NotKept, Squeezed(s));
    SqueezeWords(NotKept, spaced);
    SpacePunctStrip(Lower(s));
  }

  /** A word alone is its only word. */
  lemma WordsWord(p: char -> bool, w: string)
    requires |w| > 0
    requires forall k :: 0 <= k < |w| ==> !p(w[k])
    ensures Words(p, w) == [w]
  {
    assert w[..|w|] == w && w[|w|..] == [];
  }

  /** Text in the shape `normalizeString` produces, and not empty. */
  predicate NormalForm(x: string) {
    && |x| > 0
    && (forall k :: 0 <= k < |x| ==> OutputChar(x[k]))
    && x[0] != ' ' && x[|x| - 1] != ' '
    && (forall k :: 0 <= k < |x| - 1 ==> !(x[k] == ' ' && x[k + 1] == ' '))
  }

  /** In normal form, `split(" ")` finds exactly the words. */
  lemma {:induction false} SplitNormal(x: string)
    requires NormalForm(x)
    ensures Split(x) == Words(NotKept, x)
    decreases |x|
  {
    var m := WordLength(NotKept, x);
    var w := x[..m];
    assert OutputChar(x[0]);
    assert forall k :: 0 <= k < |w| ==> w[k] == x[k];
    if m == |x| {
      assert x == w;
      SplitNoSpace(w);
      WordsWord(NotKept, w);
    } else {
      assert OutputChar(x[m]);
      var rest := x[m + 1..];
      NormalFormTail(x, m);
      SplitNormal(rest);
      SplitAtSpace(w, rest);
      WordsAtSpace(w, rest);
      CutAt(x, m);
      assert [x[m]] == " ";
    }
  }

  /** A word without a space splits to itself. */
  lemma SplitNoSpace(w: string)
    requires forall k :: 0 <= k < |w| ==> w[k] != ' '
    ensures Split(w) == [w]
  {
    SplitPrefix(w, "");
    assert Split("") == [""];
    assert w + "" == w;
  }

  /** `split(" ")` of a space-free word, a space and the rest. */
  lemma SplitAtSpace(w: string, rest: string)
    requires forall k :: 0 <= k < |w| ==> w[k] != ' '
    ensures Split(w + (" " + rest)) == [w] + Split(rest)
  {
    var sr := Split(rest);
    assert " " + rest == [' '] + rest;
    SplitCons(' ', rest);
    var ss := Split(" " + rest);
    assert ss == [""] + sr;
    SplitPrefix(w, " " + rest);
    assert ss[0] == "" && ss[1..] == sr;
    assert w + "" == w;
  }

  /** The words of a word of letters and marks, a space and the rest. */
  lemma WordsAtSpace(w: string, rest: string)
    requires |w| > 0
    requires forall k :: 0 <= k < |w| ==> !NotKept(w[k])
    ensures Words(NotKept, w + (" " + rest)) == [w] + Words(NotKept, rest)
  {
    WordsWord(NotKept, w);
    WordsAppend(NotKept, w, " " + rest);
    WordsSpace(NotKept, rest);
  }

  /** What follows the first word and its space is again in normal form. */
  lemma NormalFormTail(x: string, m: nat)
    requires NormalForm(x)
    requires m < |x| && x[m] == ' '
    ensures NormalForm(x[m + 1..])
  {
    var rest := x[m + 1..];
    assert m + 1 < |x|;
    forall k | 0 <= k < |rest|
      ensures OutputChar(rest[k])
    {
      assert rest[k] == x[m + 1 + k];
    }
    forall k | 0 <= k < |rest| - 1
      ensures !(rest[k] == ' ' && rest[k + 1] == ' ')
    {
      assert rest[k] == x[m + 1 + k] && rest[k + 1] == x[m + 2 + k];
    }
  }

  /** The words `addSentence` and `indexesFromSentence` later find in a
      normalised line, by splitting at spaces, are exactly the runs of
      letters and punctuation of the lower-cased line with a space put
      before every mark. */
  lemma NormalizeSplit(s: string)
    requires Ascii(s)
    requires NormalizeString(s) != ""
    ensures Split(NormalizeString(s)) == Words(NotKept, SpacePunct(Lower(s)))
  {
    NormalizeWords(s);
    SplitNormal(NormalizeString(s));
  }
}
