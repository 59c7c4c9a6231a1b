/**
 * Small facts about sequences, stated once for any element type so that the
 * proofs about strings, bytes and menu items can cite them instead of
 * re-deriving sequence equalities in a crowded context.
 */
module SeqLemmas {

  /** A non-empty sequence is its front followed by its last element. */
  lemma FrontLast<T>(s: seq<T>)
    requires s != []
    ensures s[..|s| - 1] + [s[|s| - 1]] == s
  {
  }

  /** The parts of a sequence built by appending one element. */
  lemma SnocParts<T>(front: seq<T>, last: T, s: seq<T>)
    requires front + [last] == s
    ensures front == s[..|s| - 1] && last == s[|s| - 1]
  {
  }

  /** The parts of a sequence built by appending two elements. */
  lemma PairParts<T>(u: seq<T>, h: seq<T>)
    requires |h| == 2
    ensures var t := u + h; t[..|t| - 2] == u && t[|t| - 2] == h[0] && t[|t| - 1] == h[1]
  {
  }

  /** Growing a prefix of `s` by its next element, behind a fixed head. */
  lemma SnocPrefix<T>(head: seq<T>, s: seq<T>, h: nat)
    requires h < |s|
    ensures (head + s[..h]) + [s[h]] == head + s[..h + 1]
  {
    assert s[..h + 1] == s[..h] + [s[h]];
  }

  lemma AppendAssociative<T>(a: seq<T>, b: seq<T>, c: seq<T>)
    ensures (a + b) + c == a + (b + c)
  {
  }

  /** Slices of a prefix are slices of the whole. */
  lemma SliceOfPrefix<T>(s: seq<T>, e: seq<T>, i: nat)
    requires |e| <= |s| && e == s[..|e|] && i <= |e|
    ensures e[i..] == s[i..|e|] && e[..i] == s[..i]
  {
  }

  /** Exchanging two elements keeps the same elements. */
  lemma SwapPermutes<T>(s: seq<T>, p: nat, q: nat)
    requires p < q < |s|
    ensures multiset(s[p := s[q]][q := s[p]]) == multiset(s)
  {
    var t := s[p := s[q]];
    assert multiset(t) == multiset(s) - multiset{s[p]} + multiset{s[q]};
    assert multiset(t[q := s[p]]) == multiset(t) - multiset{t[q]} + multiset{s[p]};
  }

  lemma EvenLength<T>(s: seq<T>, n: nat)
    requires |s| == 2 * n
    ensures |s| % 2 == 0
  {
  }
}
