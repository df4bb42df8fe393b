/**
 * The pieces of Rust's `str` that the program relies on: `trim`, `split` with a
 * string pattern (and its inverse, joining), and the ordering of `String`.
 */
module Strings {
  import Seqs

  /** Rust's `char::is_whitespace`: the characters with the Unicode White_Space property. */
  predicate IsWhitespace(c: char) {
    ('\t' <= c <= '\r') || c == ' ' || c == '\U{85}' || c == '\U{A0}' || c == '\U{1680}'
    || ('\U{2000}' <= c <= '\U{200A}') || c == '\U{2028}' || c == '\U{2029}'
    || c == '\U{202F}' || c == '\U{205F}' || c == '\U{3000}'
  }

  predicate AllWhitespace(s: string) {
    forall i | 0 <= i < |s| :: IsWhitespace(s[i])
  }

  /** The first index at or after `i` that holds no whitespace; `|s|` when there is none. */
  function SkipStart(s: string, i: nat): (k: nat)
    requires i <= |s|
    ensures i <= k <= |s|
    ensures forall j | i <= j < k :: IsWhitespace(s[j])
    ensures k < |s| ==> !IsWhitespace(s[k])
    decreases |s| - i
  {
    if i < |s| && IsWhitespace(s[i]) then SkipStart(s, i + 1) else i
  }

  /** The end of `s[..j]` once its trailing whitespace is dropped. */
  function SkipEnd(s: string, j: nat): (k: nat)
    requires j <= |s|
    ensures k <= j
    ensures forall i | k <= i < j :: IsWhitespace(s[i])
    ensures k > 0 ==> !IsWhitespace(s[k - 1])
  {
    if j > 0 && IsWhitespace(s[j - 1]) then SkipEnd(s, j - 1) else j
  }

  /**
   * `str::trim`: the text between the leading and the trailing whitespace,
   * neither end of which is whitespace.
   */
  function Trim(s: string): (r: string)
    ensures |r| <= |s|
    ensures r != [] ==> !IsWhitespace(r[0]) && !IsWhitespace(r[|r| - 1])
  {
    var a := SkipStart(s, 0);
    if a == |s| then [] else s[a..SkipEnd(s, |s|)]
  }

  /** The trimmed text is a slice of the input with only whitespace on either side. */
  lemma TrimIsSlice(s: string)
    ensures var i := SkipStart(s, 0); var r := Trim(s);
      i + |r| <= |s| && r == s[i..i + |r|]
      && AllWhitespace(s[..i]) && AllWhitespace(s[i + |r|..])
  {
    var i := SkipStart(s, 0);
    var r := Trim(s);
    var e := SkipEnd(s, |s|);
    if i < |s| {
      assert !IsWhitespace(s[i]);
      assert i < e;
      assert i + |r| == e;
    }
    var head, tail := s[..i], s[i + |r|..];
    assert forall k | 0 <= k < |head| :: head[k] == s[k];
    assert forall k | 0 <= k < |tail| :: tail[k] == s[i + |r| + k];
  }

  /**
   * `trim` is characterised by its result: text with non-whitespace ends (or
   * none), surrounded by whitespace only, trims to itself.
   */
  lemma TrimOf(pre: string, r: string, post: string)
    requires AllWhitespace(pre) && AllWhitespace(post)
    requires r != [] ==> !IsWhitespace(r[0]) && !IsWhitespace(r[|r| - 1])
    ensures Trim(pre + r + post) == r
  {
    var t := pre + r + post;
    assert forall k | 0 <= k < |pre| :: t[k] == pre[k];
    assert forall k | 0 <= k < |r| :: t[|pre| + k] == r[k];
    assert forall k | 0 <= k < |post| :: t[|pre| + |r| + k] == post[k];
    var a := SkipStart(t, 0);
    var e := SkipEnd(t, |t|);
    if r == [] {
      assert AllWhitespace(t);
      assert a == |t|;
    } else {
      assert t[|pre|] == r[0];
      assert a == |pre|;
      assert t[|pre| + |r| - 1] == r[|r| - 1];
      assert e == |pre| + |r|;
      assert t[a..e] == r;
    }
  }

  /** Trimming yields the empty string exactly when the input is all whitespace. */
  lemma TrimEmptyIff(s: string)
    ensures Trim(s) == [] <==> AllWhitespace(s)
  {
    if AllWhitespace(s) {
      TrimOf(s, [], []);
      assert s + [] + [] == s;
    }
  }

  /** Text that neither starts nor ends with whitespace is already trimmed. */
  lemma TrimFixed(s: string)
    requires s != [] ==> !IsWhitespace(s[0]) && !IsWhitespace(s[|s| - 1])
    ensures Trim(s) == s
  {
    TrimOf([], s, []);
    assert [] + s + [] == s;
  }

  /** Whitespace around a text, such as the newline `read_line` leaves, does not change what `trim` gives. */
  lemma TrimAbsorbsWhitespace(pre: string, s: string, post: string)
    requires AllWhitespace(pre) && AllWhitespace(post)
    ensures Trim(pre + s + post) == Trim(s)
  {
    TrimIsSlice(s);
    var i := SkipStart(s, 0);
    var r := Trim(s);
    var head, tail := s[..i], s[i + |r|..];
    Seqs.SliceParts(s, i, i + |r|);
    Seqs.Regroup(pre, head, r, tail, post);
    AllWhitespaceAppend(pre, head);
    AllWhitespaceAppend(tail, post);
    TrimOf(pre + head, r, tail + post);
  }

  lemma AllWhitespaceAppend(a: string, b: string)
    requires AllWhitespace(a) && AllWhitespace(b)
    ensures AllWhitespace(a + b)
  {
    assert forall k | 0 <= k < |a + b| :: (a + b)[k] == if k < |a| then a[k] else b[k - |a|];
  }

  // ---------------------------------------------------------------- splitting

  /** `sep` occurs in `s` starting at index `i`. */
  predicate OccursAt(s: string, sep: string, i: nat) {
    i + |sep| <= |s| && s[i..i + |sep|] == sep
  }

  predicate Contains(s: string, sep: string) {
    exists i: nat | i <= |s| :: OccursAt(s, sep, i)
  }

  /**
   * No proper suffix of `sep` is also a prefix of it, so two occurrences of
   * `sep` can never overlap. Both separators the program uses have this shape.
   */
  predicate NonOverlapping(sep: string) {
    forall d | 0 < d < |sep| :: sep[d..] != sep[..|sep| - d]
  }

  /** Index of the first occurrence of `sep` at or after `from`; `|s|` when there is none. */
  function FindFrom(s: string, sep: string, from: nat): (k: nat)
    requires |sep| > 0 && from <= |s|
    ensures from <= k <= |s|
    ensures k < |s| ==> OccursAt(s, sep, k)
    ensures forall i: nat | from <= i < k :: !OccursAt(s, sep, i)
    decreases |s| - from
  {
    if from + |sep| > |s| then |s|
    else if s[from..from + |sep|] == sep then from
    else FindFrom(s, sep, from + 1)
  }

  /** `str::split(sep)`: the pieces between successive left-most occurrences of `sep`. */
  function Split(s: string, sep: string): (parts: seq<string>)
    requires |sep| > 0
    ensures |parts| > 0
    decreases |s|
  {
    var k := FindFrom(s, sep, 0);
    if k == |s| then [s] else [s[..k]] + Split(s[k + |sep|..], sep)
  }

  /** `[String]::join(sep)`. */
  function Join(parts: seq<string>, sep: string): string {
    if |parts| == 0 then ""
    else if |parts| == 1 then parts[0]
    else parts[0] + sep + Join(parts[1..], sep)
  }

  /** Joining the pieces with the separator gives back the text. */
  lemma {:induction false} JoinSplit(s: string, sep: string)
    requires |sep| > 0
    ensures Join(Split(s, sep), sep) == s
    decreases |s|
  {
    var k := FindFrom(s, sep, 0);
    if k < |s| {
      var rest := s[k + |sep|..];
      JoinSplit(rest, sep);
      var tail := Split(rest, sep);
      assert Split(s, sep) == [s[..k]] + tail;
      assert s == s[..k] + sep + rest;
    }
  }

  /** The text before the first occurrence of `sep` does not contain it. */
  lemma BeforeFirstFree(s: string, sep: string)
    requires |sep| > 0
    ensures !Contains(s[..FindFrom(s, sep, 0)], sep)
  {
    var k := FindFrom(s, sep, 0);
    var head := s[..k];
    forall i: nat | i <= |head| ensures !OccursAt(head, sep, i) {
      if i + |sep| <= |head| {
        assert head[i..i + |sep|] == s[i..i + |sep|];
        assert !OccursAt(s, sep, i);
      }
    }
  }

  /** No piece contains the separator. */
  lemma {:induction false} SplitPiecesFree(s: string, sep: string)
    requires |sep| > 0
    ensures forall p | p in Split(s, sep) :: !Contains(p, sep)
    decreases |s|
  {
    var k := FindFrom(s, sep, 0);
    BeforeFirstFree(s, sep);
    if k < |s| {
      var rest := s[k + |sep|..];
      SplitPiecesFree(rest, sep);
      assert Split(s, sep) == [s[..k]] + Split(rest, sep);
    } else {
      assert s[..k] == s;
      assert Split(s, sep) == [s];
    }
  }

  /** Number of (possibly overlapping) positions at or after `from` where `sep` occurs. */
  function CountFrom(s: string, sep: string, from: nat): nat
    decreases |s| - from
  {
    if from + |sep| > |s| || |sep| == 0 then 0
    else (if OccursAt(s, sep, from) then 1 else 0) + CountFrom(s, sep, from + 1)
  }

  function Occurrences(s: string, sep: string): nat {
    CountFrom(s, sep, 0)
  }

  lemma {:induction false} CountSkip(s: string, sep: string, from: nat, upto: nat)
    requires from <= upto
    requires forall i: nat | from <= i < upto :: !OccursAt(s, sep, i)
    ensures CountFrom(s, sep, from) == CountFrom(s, sep, upto)
    decreases upto - from
  {
    if from < upto {
      CountSkip(s, sep, from + 1, upto);
    }
  }

  lemma {:induction false} CountShift(s: string, sep: string, j: nat, from: nat)
    requires j <= from
    requires j <= |s|
    ensures CountFrom(s, sep, from) == CountFrom(s[j..], sep, from - j)
    decreases |s| - from
  {
    if from + |sep| <= |s| && |sep| > 0 {
      assert s[j..][from - j..from - j + |sep|] == s[from..from + |sep|];
      CountShift(s, sep, j, from + 1);
    }
  }

  /** After an occurrence of a non-overlapping separator, the next one starts at least `|sep|` later. */
  lemma NoOverlapAfter(s: string, sep: string, k: nat, d: nat)
    requires NonOverlapping(sep) && OccursAt(s, sep, k) && 0 < d < |sep|
    ensures !OccursAt(s, sep, k + d)
  {
    if k + d + |sep| <= |s| {
      var w := s[k + d..k + d + |sep|];
      assert w[..|sep| - d] == s[k + d..k + |sep|] == sep[d..];
      assert w[..|sep| - d] != sep[..|sep| - d];
    }
  }

  /** A non-overlapping separator does not occur again before its occurrence at `k` has ended. */
  lemma NoOccurrenceWithin(s: string, sep: string, k: nat)
    requires NonOverlapping(sep) && OccursAt(s, sep, k)
    ensures forall i: nat | k + 1 <= i < k + |sep| :: !OccursAt(s, sep, i)
  {
    forall i: nat | k + 1 <= i < k + |sep| ensures !OccursAt(s, sep, i) {
      NoOverlapAfter(s, sep, k, i - k);
    }
  }

  lemma CountAtOccurrence(s: string, sep: string, k: nat)
    requires |sep| > 0 && OccursAt(s, sep, k)
    ensures CountFrom(s, sep, k) == 1 + CountFrom(s, sep, k + 1)
  {
  }

  /** The occurrences up to and including the first one, at `k`, when nothing overlaps it. */
  lemma CountThroughFirst(s: string, sep: string, k: nat)
    requires |sep| > 0 && OccursAt(s, sep, k)
    requires forall i: nat | i < k :: !OccursAt(s, sep, i)
    requires forall i: nat | k + 1 <= i < k + |sep| :: !OccursAt(s, sep, i)
    ensures CountFrom(s, sep, 0) == 1 + CountFrom(s, sep, k + |sep|)
  {
    CountSkip(s, sep, 0, k);
    CountAtOccurrence(s, sep, k);
    CountSkip(s, sep, k + 1, k + |sep|);
  }

  /**
   * Past an occurrence at `k` that is the first one and is not followed by
   * an overlapping one, the count drops by one.
   */
  lemma OccurrencesAfterFirst(s: string, sep: string, k: nat)
    requires |sep| > 0 && OccursAt(s, sep, k)
    requires forall i: nat | i < k :: !OccursAt(s, sep, i)
    requires forall i: nat | k + 1 <= i < k + |sep| :: !OccursAt(s, sep, i)
    ensures Occurrences(s, sep) == 1 + Occurrences(s[k + |sep|..], sep)
  {
    CountThroughFirst(s, sep, k);
    CountShift(s, sep, k + |sep|, k + |sep|);
  }

  /** With no occurrence at all there is none to count. */
  lemma NoOccurrences(s: string, sep: string)
    requires |sep| > 0 && FindFrom(s, sep, 0) == |s|
    ensures Occurrences(s, sep) == 0
  {
    CountSkip(s, sep, 0, |s|);
    assert CountFrom(s, sep, |s|) == 0;
  }

  /** With a non-overlapping separator there is one more piece than there are occurrences. */
  lemma {:induction false} SplitCount(s: string, sep: string)
    requires |sep| > 0 && NonOverlapping(sep)
    ensures |Split(s, sep)| == Occurrences(s, sep) + 1
    decreases |s|
  {
    var k := FindFrom(s, sep, 0);
    if k == |s| {
      NoOccurrences(s, sep);
    } else {
      NoOccurrenceWithin(s, sep, k);
      OccurrencesAfterFirst(s, sep, k);
      SplitCount(s[k + |sep|..], sep);
    }
  }

  /** An occurrence that starts inside `p` and reaches past its end would make `sep` overlap itself. */
  lemma NoStraddle(p: string, sep: string, rest: string, i: nat)
    requires NonOverlapping(sep) && |sep| > 0 && !Contains(p, sep) && i < |p|
    ensures !OccursAt(p + sep + rest, sep, i)
  {
    var s := p + sep + rest;
    if i + |sep| <= |p| {
      assert s[i..i + |sep|] == p[i..i + |sep|];
      assert !OccursAt(p, sep, i);
    } else if i + |sep| <= |s| {
      var d := |p| - i;
      var w := s[i..i + |sep|];
      assert w[d..] == sep[..|sep| - d];
      assert w[d..] != sep[d..];
    }
  }

  /** Splitting a join of separator-free pieces recovers the pieces. */
  lemma {:induction false} SplitJoin(parts: seq<string>, sep: string)
    requires |sep| > 0 && NonOverlapping(sep) && |parts| > 0
    requires forall p | p in parts :: !Contains(p, sep)
    ensures Split(Join(parts, sep), sep) == parts
  {
    var s := Join(parts, sep);
    var k := FindFrom(s, sep, 0);
    if |parts| == 1 {
      assert s == parts[0] && parts[0] in parts;
      assert !OccursAt(s, sep, k);
    } else {
      var p := parts[0];
      var rest := Join(parts[1..], sep);
      assert s == p + sep + rest;
      assert OccursAt(s, sep, |p|) by {
        assert s[|p|..|p| + |sep|] == sep;
      }
      if k < |p| {
        NoStraddle(p, sep, rest, k);
      }
      assert k == |p|;
      assert s[..k] == p;
      assert s[k + |sep|..] == rest;
      SplitJoin(parts[1..], sep);
    }
  }

  // ---------------------------------------------------------------- ordering

  /**
   * Rust's `Ord` on `String`: lexicographic on the UTF-8 bytes, which orders
   * text as lexicographic comparison of code points does.
   */
  predicate LexLess(a: string, b: string) {
    if |a| == 0 then |b| > 0
    else if |b| == 0 then false
    else if a[0] != b[0] then a[0] < b[0]
    else LexLess(a[1..], b[1..])
  }

  /** The textbook definition: a proper prefix, or a smaller character after a common prefix. */
  ghost predicate LexLessRef(a: string, b: string) {
    (|a| < |b| && a == b[..|a|])
    || exists k | 0 <= k < |a| && k < |b| :: a[..k] == b[..k] && a[k] < b[k]
  }

  lemma LexLessIsRef(a: string, b: string)
    ensures LexLess(a, b) <==> LexLessRef(a, b)
  {
    if LexLess(a, b) { LexLessToRef(a, b); }
    if LexLessRef(a, b) { RefToLexLess(a, b); }
  }

  lemma {:induction false} LexLessToRef(a: string, b: string)
    requires LexLess(a, b)
    ensures LexLessRef(a, b)
    decreases |a|
  {
    if |a| == 0 {
      assert a == b[..0];
    } else if a[0] != b[0] {
      assert a[..0] == b[..0];
    } else {
      LexLessToRef(a[1..], b[1..]);
      RefCons(a, b);
    }
  }

  /** A common first character extends the reference order of the tails to the whole strings. */
  lemma RefCons(a: string, b: string)
    requires |a| > 0 && |b| > 0 && a[0] == b[0] && LexLessRef(a[1..], b[1..])
    ensures LexLessRef(a, b)
  {
    if |a| - 1 < |b| - 1 && a[1..] == b[1..][..|a| - 1] {
      assert a == [a[0]] + a[1..] && b[..|a|] == [b[0]] + b[1..][..|a| - 1];
    } else {
      var k :| 0 <= k < |a| - 1 && k < |b| - 1 && a[1..][..k] == b[1..][..k] && a[1..][k] < b[1..][k];
      assert a[..k + 1] == [a[0]] + a[1..][..k];
      assert b[..k + 1] == [b[0]] + b[1..][..k];
      assert a[..k + 1] == b[..k + 1] && a[k + 1] < b[k + 1];
    }
  }

  lemma {:induction false} RefToLexLess(a: string, b: string)
    requires LexLessRef(a, b)
    ensures LexLess(a, b)
    decreases |a|
  {
    if |a| > 0 {
      RefHead(a, b);
      if a[0] == b[0] {
        RefTail(a, b);
        RefToLexLess(a[1..], b[1..]);
      }
    }
  }

  /** Under the reference order, a non-empty `a` is compared with a non-empty `b`, and differing first characters decide. */
  lemma RefHead(a: string, b: string)
    requires LexLessRef(a, b) && |a| > 0
    ensures |b| > 0 && (a[0] != b[0] ==> a[0] < b[0])
  {
    if |a| < |b| && a == b[..|a|] {
      assert a[0] == b[..|a|][0];
    } else {
      var k :| 0 <= k < |a| && k < |b| && a[..k] == b[..k] && a[k] < b[k];
      if k > 0 { assert a[..k][0] == b[..k][0]; }
    }
  }

  /** With equal first characters, the reference order passes to the tails. */
  lemma RefTail(a: string, b: string)
    requires LexLessRef(a, b) && |a| > 0 && |b| > 0 && a[0] == b[0]
    ensures LexLessRef(a[1..], b[1..])
  {
    if |a| < |b| && a == b[..|a|] {
      assert a[1..] == b[1..][..|a| - 1];
    } else {
      var k :| 0 <= k < |a| && k < |b| && a[..k] == b[..k] && a[k] < b[k];
      assert k > 0;
      assert a[1..][..k - 1] == a[..k][1..];
      assert b[1..][..k - 1] == b[..k][1..];
      assert a[1..][k - 1] < b[1..][k - 1];
    }
  }

  lemma {:induction false} LexLessIrreflexive(a: string)
    ensures !LexLess(a, a)
    decreases |a|
  {
    if |a| > 0 { LexLessIrreflexive(a[1..]); }
  }

  lemma {:induction false} LexLessTransitive(a: string, b: string, c: string)
    requires LexLess(a, b) && LexLess(b, c)
    ensures LexLess(a, c)
    decreases |a|
  {
    if |a| > 0 && a[0] == b[0] && b[0] == c[0] {
      LexLessTransitive(a[1..], b[1..], c[1..]);
    }
  }

  lemma {:induction false} LexLessTotal(a: string, b: string)
    ensures a == b || LexLess(a, b) || LexLess(b, a)
    decreases |a|
  {
    if |a| > 0 && |b| > 0 && a[0] == b[0] {
      LexLessTotal(a[1..], b[1..]);
      if a[1..] == b[1..] { assert a == [a[0]] + a[1..] && b == [b[0]] + b[1..]; }
    }
  }

  lemma {:induction false} LexLessAsymmetric(a: string, b: string)
    requires LexLess(a, b)
    ensures !LexLess(b, a)
    decreases |a|
  {
    if |a| > 0 && a[0] == b[0] {
      LexLessAsymmetric(a[1..], b[1..]);
    }
  }
}
