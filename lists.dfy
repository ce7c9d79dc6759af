/** Facts about Python lists used by several engines: distinct object
    references, "keeps some elements, in their original order", and the
    total of a list of counts. */
module Lists {

  /** No element occurs twice: every list entry is its own object. */
  ghost predicate Distinct<T>(s: seq<T>) {
    forall i, j :: 0 <= i < j < |s| ==> s[i] != s[j]
  }

  /** Two lists of distinct elements with nothing in common concatenate to one. */
  lemma DistinctAppend<T>(a: seq<T>, b: seq<T>)
    requires Distinct(a) && Distinct(b) && forall x :: x in a ==> x !in b
    ensures Distinct(a + b)
  {
    forall i, j | 0 <= i < j < |a + b|
      ensures (a + b)[i] != (a + b)[j]
    {
      if i < |a| && |a| <= j {
        assert (a + b)[i] in a && (a + b)[j] == b[j - |a|];
      }
    }
  }

  /** `small` is `big` with some elements left out and the rest in their
      original order. Matching from the back is complete: if the last
      elements agree they can always be paired. */
  predicate IsSubsequence<T(==)>(small: seq<T>, big: seq<T>)
    decreases |big|
  {
    if small == [] then true
    else if big == [] then false
    else if small[|small| - 1] == big[|big| - 1] then IsSubsequence(small[..|small| - 1], big[..|big| - 1])
    else IsSubsequence(small, big[..|big| - 1])
  }

  /** Leaving out the last kept element still gives a subsequence. */
  lemma {:induction false} SubsequenceDropLast<T>(small: seq<T>, big: seq<T>)
    requires small != [] && IsSubsequence(small, big)
    ensures IsSubsequence(small[..|small| - 1], big)
    decreases |big|, 0
  {
    var front := small[..|small| - 1];
    if front == [] {
    } else if small[|small| - 1] == big[|big| - 1] {
      SubsequenceSkip(front, big[..|big| - 1], big[|big| - 1]);
      assert big[..|big| - 1] + [big[|big| - 1]] == big;
    } else {
      SubsequenceDropLast(small, big[..|big| - 1]);
      SubsequenceSkip(front, big[..|big| - 1], big[|big| - 1]);
      assert big[..|big| - 1] + [big[|big| - 1]] == big;
    }
  }

  /** An element appended to the big list only may be skipped. */
  lemma {:induction false} SubsequenceSkip<T>(small: seq<T>, big: seq<T>, x: T)
    requires IsSubsequence(small, big)
    ensures IsSubsequence(small, big + [x])
    decreases |big|, 1
  {
    var b := big + [x];
    assert b[..|b| - 1] == big;
    if small != [] && small[|small| - 1] == x {
      SubsequenceDropLast(small, big);
    }
  }

  /** An element appended to both lists is kept. */
  lemma SubsequenceKeep<T>(small: seq<T>, big: seq<T>, x: T)
    requires IsSubsequence(small, big)
    ensures IsSubsequence(small + [x], big + [x])
  {
    assert (small + [x])[..|small|] == small;
    assert (big + [x])[..|big|] == big;
  }

  /** Every element of a subsequence comes from the big list. */
  lemma {:induction false} SubsequenceMembers<T>(small: seq<T>, big: seq<T>)
    requires IsSubsequence(small, big)
    ensures forall x :: x in small ==> x in big
    decreases |big|
  {
    if small != [] {
      var front := big[..|big| - 1];
      assert big == front + [big[|big| - 1]];
      if small[|small| - 1] == big[|big| - 1] {
        assert small == small[..|small| - 1] + [small[|small| - 1]];
        SubsequenceMembers(small[..|small| - 1], front);
      } else {
        SubsequenceMembers(small, front);
      }
    }
  }

  /** A subsequence of a list of distinct elements has distinct elements. */
  lemma {:induction false} SubsequenceDistinct<T>(small: seq<T>, big: seq<T>)
    requires IsSubsequence(small, big) && Distinct(big)
    ensures Distinct(small)
    ensures forall x :: x in small ==> x in big
    decreases |big|
  {
    if small == [] {
    } else if small[|small| - 1] == big[|big| - 1] {
      SubsequenceDistinct(small[..|small| - 1], big[..|big| - 1]);
      assert small == small[..|small| - 1] + [small[|small| - 1]];
      forall x | x in small ensures x in big {
        if x != small[|small| - 1] {
          assert x in small[..|small| - 1];
        }
      }
      forall i, j | 0 <= i < j < |small| ensures small[i] != small[j] {
        if j == |small| - 1 {
          assert small[i] in big[..|big| - 1];
        }
      }
    } else {
      SubsequenceDistinct(small, big[..|big| - 1]);
    }
  }

  /** The total of a list of counts, such as the litters of a generation. */
  function Sum(s: seq<nat>): nat {
    if s == [] then 0 else Sum(s[..|s| - 1]) + s[|s| - 1]
  }

  /** n copies of x. */
  function Repeat<T>(x: T, n: nat): (r: seq<T>)
    ensures |r| == n && forall k :: 0 <= k < n ==> r[k] == x
  {
    if n == 0 then [] else Repeat(x, n - 1) + [x]
  }

  /** Each element of s repeated as often as its count says, in order: for
      a breeding round, the parent each kit was copied from. */
  function Spread<T>(s: seq<T>, counts: seq<nat>): (r: seq<T>)
    requires |counts| == |s|
    ensures |r| == Sum(counts)
  {
    if s == [] then [] else Spread(s[..|s| - 1], counts[..|s| - 1]) + Repeat(s[|s| - 1], counts[|s| - 1])
  }

  /** One more element spreads its copies after those of the elements before it. */
  lemma SpreadStep<T>(s: seq<T>, counts: seq<nat>, i: nat)
    requires |counts| == |s| && i < |s|
    ensures Spread(s[..i + 1], counts[..i + 1]) == Spread(s[..i], counts[..i]) + Repeat(s[i], counts[i])
  {
    assert s[..i + 1][..i] == s[..i] && counts[..i + 1][..i] == counts[..i];
  }
}
