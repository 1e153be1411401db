/**
 Facts about sequences that hold whatever the element type: how a
 concatenation or a slice splits up again. The string and byte proofs use
 them to move between the pieces of a sequence they have built.
 */
module SeqFacts {
  /** Cutting one element off the front of a prefix. */
  lemma {:induction false} PrefixAfterHead<T>(s: seq<T>, k: int)
    requires 1 <= k <= |s|
    ensures s[..k] == [s[0]] + s[1..][..k - 1]
  {
  }

  /** Cutting one element off the back of a suffix. */
  lemma {:induction false} SuffixBeforeLast<T>(s: seq<T>, k: int)
    requires 0 <= k < |s|
    ensures s[k..] == s[..|s| - 1][k..] + [s[|s| - 1]]
  {
  }

  /** Past the head, indexing goes on in the tail. */
  lemma {:induction false} IndexPastHead<T>(xs: seq<T>, x: T, ys: seq<T>, n: int)
    requires xs == [x] + ys && 1 <= n < |xs|
    ensures xs[n] == ys[n - 1]
  {
  }

  /** A slice `s[a..a + m]` seen as a prefix of the suffix `s[a..]`, and its own prefixes. */
  lemma {:induction false} PrefixOfSuffix<T>(s: seq<T>, mid: seq<T>, a: int, m: int, k: int)
    requires 0 <= a && 0 <= k <= m && a + m <= |s| && mid == s[a..a + m]
    ensures mid == s[a..][..m]
    ensures mid[..k] == s[a..a + k]
  {
  }

  /** How `h + x + t` splits up again around `x`. */
  lemma {:induction false} Envelope<T>(h: seq<T>, x: seq<T>, t: seq<T>)
    requires h != [] && t != []
    ensures [] + h + (x + t) == h + x + t && x + t + [] == x + t
    ensures (h + x + t)[|h|..] == x + t && (h + x + t)[|h|..|h| + |x|] == x
    ensures (h + x + t)[0] == h[0] && (h + x + t)[|h + x + t| - 1] == t[|t| - 1]
  {
  }

  /** Three leading elements, then the rest regrouped. */
  lemma {:induction false} AfterThree<T>(h: seq<T>, t: seq<T>, rest: seq<T>)
    requires |h| == 3
    ensures (h + t + rest)[..3] == h && (h + t + rest)[3..] == t + rest
  {
  }

  /** Taking the head off and putting it back in front of an append. */
  lemma {:induction false} ConsAppend<T>(xs: seq<T>, ys: seq<T>)
    requires xs != []
    ensures [xs[0]] + (xs[1..] + ys) == xs + ys
  {
    assert xs == [xs[0]] + xs[1..];
  }

  /** The head and the tail of an append whose left part is not empty. */
  lemma {:induction false} HeadOfAppend<T>(xs: seq<T>, ys: seq<T>)
    requires xs != []
    ensures (xs + ys)[0] == xs[0] && (xs + ys)[1..] == xs[1..] + ys
  {
  }

  /** Appending is associative. */
  lemma {:induction false} AppendAssoc<T>(a: seq<T>, b: seq<T>, c: seq<T>)
    ensures a + (b + c) == a + b + c
  {
  }
}
