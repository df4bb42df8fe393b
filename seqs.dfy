/** Facts about sequences that the proofs of the other modules share. */
module Seqs {

  /** `f` applied to each element of `s`, in order. */
  function Map<A, B>(f: A -> B, s: seq<A>): (r: seq<B>)
    ensures |r| == |s|
    ensures forall i | 0 <= i < |s| :: r[i] == f(s[i])
  {
    seq(|s|, i requires 0 <= i < |s| => f(s[i]))
  }

  /** Mapping distributes over concatenation. */
  lemma MapAppend<A, B>(f: A -> B, a: seq<A>, b: seq<A>)
    ensures Map(f, a + b) == Map(f, a) + Map(f, b)
  {
    var l, r := Map(f, a + b), Map(f, a) + Map(f, b);
    forall i | 0 <= i < |l| ensures l[i] == r[i] {
      if i < |a| { assert (a + b)[i] == a[i]; } else { assert (a + b)[i] == b[i - |a|]; }
    }
  }

  /** The prefix as long as the sequence is the sequence. */
  lemma TakeAll<T>(s: seq<T>, n: nat)
    requires n == |s|
    ensures s[..n] == s
  {
  }

  /** A prefix reaching into the second part of a concatenation. */
  lemma TakeAppend<T>(x: seq<T>, y: seq<T>, n: nat)
    requires n <= |y|
    ensures (x + y)[..|x| + n] == x + y[..n]
  {
  }

  /** A prefix that stays within the first part of a concatenation. */
  lemma TakePrefix<T>(x: seq<T>, y: seq<T>, n: nat)
    requires n <= |x|
    ensures (x + y)[..n] == x[..n]
  {
  }

  /** A prefix one element longer is the shorter prefix followed by that element. */
  lemma TakeSnoc<T>(s: seq<T>, i: nat)
    requires i < |s|
    ensures s[..i + 1] == s[..i] + [s[i]]
  {
  }

  /** A non-empty sequence is its front followed by its last element: `TakeSnoc` at the last index. */
  lemma Snoc<T>(s: seq<T>)
    requires |s| > 0
    ensures s == s[..|s| - 1] + [s[|s| - 1]]
  {
    TakeSnoc(s, |s| - 1);
    TakeAll(s, |s|);
  }

  /** Dropping the last element of a concatenation drops it from the second part. */
  lemma InitOfAppend<T>(a: seq<T>, b: seq<T>)
    requires |b| > 0
    ensures (a + b)[..|a + b| - 1] == a + b[..|b| - 1]
  {
  }

  /** An empty part can be moved past its neighbour. */
  lemma SwapLast<T>(a: seq<T>, b: seq<T>, c: seq<T>)
    requires b == [] || c == []
    ensures a + b + c == a + c + b
  {
  }

  /** A sequence is the concatenation of the three slices two cut points make. */
  lemma SliceParts<T>(s: seq<T>, i: nat, j: nat)
    requires i <= j <= |s|
    ensures s == s[..i] + s[i..j] + s[j..]
  {
  }

  /** Concatenation is associative, for the grouping `trim`'s proofs need. */
  lemma Regroup<T>(a: seq<T>, b: seq<T>, c: seq<T>, d: seq<T>, e: seq<T>)
    ensures a + (b + c + d) + e == (a + b) + c + (d + e)
  {
  }

  /** `f(n, s[n - 1])` for each element of `s`, numbered from 1: the shape of an `enumerate()` loop printing `index + 1`. */
  function Numbered<T, U>(f: (int, T) -> U, s: seq<T>): seq<U>
    decreases |s|
  {
    if s == [] then [] else Numbered(f, s[..|s| - 1]) + [f(|s|, s[|s| - 1])]
  }

  /** Element `i` of `Numbered(f, s)` is `f(i + 1, s[i])`. */
  lemma {:induction false} NumberedAt<T, U>(f: (int, T) -> U, s: seq<T>)
    ensures |Numbered(f, s)| == |s|
    ensures forall i | 0 <= i < |s| :: Numbered(f, s)[i] == f(i + 1, s[i])
    decreases |s|
  {
    if s != [] {
      var init := s[..|s| - 1];
      NumberedAt(f, init);
      forall i | 0 <= i < |s| ensures Numbered(f, s)[i] == f(i + 1, s[i]) {
        if i < |init| {
          assert Numbered(f, s)[i] == Numbered(f, init)[i];
          assert init[i] == s[i];
        }
      }
    }
  }

  /** One more element numbers one more line. */
  lemma NumberedSnoc<T, U>(f: (int, T) -> U, s: seq<T>, i: nat)
    requires i < |s|
    ensures Numbered(f, s[..i + 1]) == Numbered(f, s[..i]) + [f(i + 1, s[i])]
  {
    assert s[..i + 1][..i] == s[..i];
  }
}
