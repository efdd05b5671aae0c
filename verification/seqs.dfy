/** Order-preserving selection from sequences: the shape shared by every
    list comprehension with an `if` in the chatbot's preprocessing. */
module Seqs {

  /** `a` is `b` with some elements deleted and the rest kept in order.
      Defined from the end, the way the source's loops append. */
  predicate IsSubseq<T(==)>(a: seq<T>, b: seq<T>)
    decreases |b|
  {
    || |a| == 0
    || (&& |b| > 0
        && (|| (a[|a| - 1] == b[|b| - 1] && IsSubseq(a[..|a| - 1], b[..|b| - 1]))
            || IsSubseq(a, b[..|b| - 1])))
  }

  /** Keeping the next element of `b` extends the subsequence. */
  lemma SubseqKeep<T>(a: seq<T>, b: seq<T>, x: T)
    requires IsSubseq(a, b)
    ensures IsSubseq(a + [x], b + [x])
  {
    assert (a + [x])[..|a|] == a;
    assert (b + [x])[..|b|] == b;
  }

  /** Skipping the next element of `b` keeps the subsequence. */
  lemma SubseqSkip<T>(a: seq<T>, b: seq<T>, x: T)
    requires IsSubseq(a, b)
    ensures IsSubseq(a, b + [x])
  {
    assert (b + [x])[..|b|] == b;
  }

  /** Every element of a subsequence occurs in the whole. */
  lemma {:induction false} SubseqMembers<T>(a: seq<T>, b: seq<T>)
    requires IsSubseq(a, b)
    ensures forall x :: x in a ==> x in b
    decreases |b|
  {
    if |a| > 0 {
      var b' := b[..|b| - 1];
      if a[|a| - 1] == b[|b| - 1] && IsSubseq(a[..|a| - 1], b') {
        SubseqMembers(a[..|a| - 1], b');
        assert a == a[..|a| - 1] + [a[|a| - 1]];
        assert b == b' + [b[|b| - 1]];
      } else {
        SubseqMembers(a, b');
        assert b == b' + [b[|b| - 1]];
      }
    }
  }

  /** The elements of `s` that satisfy `keep`, in their original order:
      Python's `[x for x in s if keep(x)]`. */
  function Filter<T(==,!new)>(keep: T -> bool, s: seq<T>): (r: seq<T>)
    ensures |r| <= |s|
    ensures IsSubseq(r, s)
    ensures forall k :: 0 <= k < |r| ==> keep(r[k])
    ensures forall x :: keep(x) ==> multiset(r)[x] == multiset(s)[x]
    decreases |s|
  {
    if |s| == 0 then []
    else
      var init, last := s[..|s| - 1], s[|s| - 1];
      var r0 := Filter(keep, init);
      assert s == init + [last];
      SelectedStep(keep, r0, init, last);
      if keep(last) then r0 + [last] else r0
  }

  /** `r` holds, in order, exactly the elements of `s` that satisfy `keep`,
      each as often as it occurs there. */
  ghost predicate Selected<T(!new)>(keep: T -> bool, r: seq<T>, s: seq<T>) {
    && IsSubseq(r, s)
    && (forall k :: 0 <= k < |r| ==> keep(r[k]))
    && (forall x :: keep(x) ==> multiset(r)[x] == multiset(s)[x])
  }

  /** One more element of `s`, kept when it satisfies `keep`, keeps the
      selection exact. */
  lemma SelectedStep<T(!new)>(keep: T -> bool, r: seq<T>, s: seq<T>, x: T)
    requires Selected(keep, r, s)
    ensures Selected(keep, if keep(x) then r + [x] else r, s + [x])
  {
    if keep(x) {
      SubseqKeep(r, s, x);
    } else {
      SubseqSkip(r, s, x);
    }
  }

  /** The results of `f` on each element of `s`, concatenated in order:
      a loop that extends one list with each element's contribution. */
  function FlatMap<A, B>(f: A -> seq<B>, s: seq<A>): seq<B>
    decreases |s|
  {
    if |s| == 0 then [] else FlatMap(f, s[..|s| - 1]) + f(s[|s| - 1])
  }

  /** Running the loop over two parts one after the other. */
  lemma {:induction false} FlatMapConcat<A, B>(f: A -> seq<B>, a: seq<A>, b: seq<A>)
    ensures FlatMap(f, a + b) == FlatMap(f, a) + FlatMap(f, b)
    decreases |b|
  {
    if |b| == 0 {
      assert a + b == a;
    } else {
      var b' := b[..|b| - 1];
      FlatMapConcat(f, a, b');
      assert (a + b)[..|a + b| - 1] == a + b';
      assert (a + b)[|a + b| - 1] == b[|b| - 1];
    }
  }

  /** An element of the result comes from the contribution of some element
      of `s`, and every contribution appears in the result. */
  lemma {:induction false} FlatMapMember<A, B>(f: A -> seq<B>, s: seq<A>, x: B)
    ensures x in FlatMap(f, s) <==> exists j :: 0 <= j < |s| && x in f(s[j])
    decreases |s|
  {
    if |s| > 0 {
      var n := |s| - 1;
      FlatMapMember(f, s[..n], x);
      if x in FlatMap(f, s) {
        if x in FlatMap(f, s[..n]) {
          var j :| 0 <= j < n && x in f(s[..n][j]);
          assert s[..n][j] == s[j];
        } else {
          assert x in f(s[n]);
        }
      }
      if j :| 0 <= j < |s| && x in f(s[j]) {
        if j < n {
          assert s[..n][j] == s[j];
        }
      }
    }
  }

  /** Concatenation regroups freely. */
  lemma Regroup<T>(a: seq<T>, m: seq<T>, b: seq<T>)
    ensures a + m + b == a + (m + b)
  {
  }

  /** A non-empty sequence followed by `x` is its head followed by its tail
      and `x`. */
  lemma HeadAppend<T>(w: seq<T>, x: seq<T>)
    requires |w| > 0
    ensures w + x == [w[0]] + (w[1..] + x)
  {
    assert w == [w[0]] + w[1..];
  }

  /** Cutting `a + b` inside `a`. */
  lemma SliceAppend<T>(a: seq<T>, b: seq<T>, n: nat)
    requires n <= |a|
    ensures (a + b)[..n] == a[..n] && (a + b)[n..] == a[n..] + b
    ensures n < |a| ==> (a + b)[n] == a[n]
  {
  }

  /** A sequence is its part before `m` and its part from `m`. */
  lemma TwoParts<T>(s: seq<T>, m: nat)
    requires m <= |s|
    ensures s == s[..m] + s[m..]
  {
  }

  /** A sequence is its parts before `i`, from `i` to `j`, and from `j`. */
  lemma ThreeParts<T>(s: seq<T>, i: nat, j: nat)
    requires i <= j <= |s|
    ensures s == s[..i] + s[i..j] + s[j..]
  {
    assert s[..j] == s[..i] + s[i..j];
    assert s == s[..j] + s[j..];
  }

  /** A sequence is its part before `m`, its element at `m` and the rest. */
  lemma CutAt<T>(x: seq<T>, m: nat)
    requires m < |x|
    ensures x == x[..m] + ([x[m]] + x[m + 1..])
  {
    ThreeParts(x, m, m + 1);
    assert x[m..m + 1] == [x[m]];
  }
}
