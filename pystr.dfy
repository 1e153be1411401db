/**
 The Python string operations that the reply handling relies on, over `string`
 (a sequence of Unicode scalar values): `str.isspace`, `str.strip`, the `in`
 operator on strings, and `str.split` with an explicit separator.
 */
module PyStr {
  import opened Wrappers
  import opened SeqFacts

  /** Python's whitespace test (`str.isspace`, and the set `str.strip()` removes). */
  predicate IsWhitespace(c: char) {
    || ('\t' <= c <= '\r')
    || ('\U{1C}' <= c <= ' ')
    || c == '\U{85}' || c == '\U{A0}' || c == '\U{1680}'
    || ('\U{2000}' <= c <= '\U{200A}')
    || c == '\U{2028}' || c == '\U{2029}' || c == '\U{202F}' || c == '\U{205F}' || c == '\U{3000}'
  }

  ghost predicate AllWhitespace(s: string) {
    forall i :: 0 <= i < |s| ==> IsWhitespace(s[i])
  }

  lemma {:induction false} WhitespaceJoin(a: string, b: string)
    requires AllWhitespace(a) && AllWhitespace(b)
    ensures AllWhitespace(a + b)
  {
    forall i | 0 <= i < |a + b| ensures IsWhitespace((a + b)[i]) {
      if i < |a| {
        assert (a + b)[i] == a[i];
      } else {
        assert (a + b)[i] == b[i - |a|];
      }
    }
  }

  /** Neither end of `s` is whitespace: what `strip()` leaves behind. */
  ghost predicate Stripped(s: string) {
    s == [] || (!IsWhitespace(s[0]) && !IsWhitespace(s[|s| - 1]))
  }

  // ---------------------------------------------------------------- strip

  /** `s.lstrip()`: a suffix of `s` that does not start with whitespace. */
  function TrimLeft(s: string): (r: string)
    ensures |r| <= |s| && r == s[|s| - |r|..]
    ensures r == [] || !IsWhitespace(r[0])
  {
    if s != [] && IsWhitespace(s[0]) then
      var r := TrimLeft(s[1..]);
      assert s[1..][|s| - 1 - |r|..] == s[|s| - |r|..];
      r
    else
      s
  }

  /** `s.rstrip()`: a prefix of `s` that does not end with whitespace. */
  function TrimRight(s: string): (r: string)
    ensures |r| <= |s| && r == s[..|r|]
    ensures r == [] || !IsWhitespace(r[|r| - 1])
  {
    if s != [] && IsWhitespace(s[|s| - 1]) then
      var r := TrimRight(s[..|s| - 1]);
      assert s[..|s| - 1][..|r|] == s[..|r|];
      r
    else
      s
  }

  /** What `lstrip()` removes is whitespace. */
  lemma {:induction false} TrimLeftRemoved(s: string)
    decreases |s|
    ensures AllWhitespace(s[..|s| - |TrimLeft(s)|])
  {
    if s != [] && IsWhitespace(s[0]) {
      var t := s[1..];
      var k := |s| - |TrimLeft(t)|;
      TrimLeftRemoved(t);
      PrefixAfterHead(s, k);
      WhitespaceJoin([s[0]], t[..k - 1]);
    }
  }

  /** What `rstrip()` removes is whitespace. */
  lemma {:induction false} TrimRightRemoved(s: string)
    decreases |s|
    ensures AllWhitespace(s[|TrimRight(s)|..])
  {
    if s != [] && IsWhitespace(s[|s| - 1]) {
      var t := s[..|s| - 1];
      var k := |TrimRight(t)|;
      TrimRightRemoved(t);
      SuffixBeforeLast(s, k);
      WhitespaceJoin(t[k..], [s[|s| - 1]]);
    }
  }

  /** How many leading characters `strip()` removes. */
  function TrimStart(s: string): (n: nat)
    ensures n <= |s|
  {
    |s| - |TrimLeft(s)|
  }

  /**
   Python's `s.strip()`: the piece of `s` that starts at `TrimStart(s)` and has
   no whitespace at either end (`TrimRemovesWhitespace` shows that only
   whitespace lies outside it).
   */
  function Trim(s: string): (r: string)
    ensures Stripped(r)
    ensures TrimStart(s) + |r| <= |s| && r == s[TrimStart(s)..TrimStart(s) + |r|]
  {
    var l := TrimLeft(s);
    var r := TrimRight(l);
    NestedSlice(s, TrimStart(s), |s|, 0, |r|);
    r
  }

  /** Everything `strip()` removes is whitespace. */
  lemma {:induction false} TrimRemovesWhitespace(s: string)
    ensures AllWhitespace(s[..TrimStart(s)])
    ensures AllWhitespace(s[TrimStart(s) + |Trim(s)|..])
  {
    TrimLeftRemoved(s);
    TrimTrailing(s);
  }

  lemma {:induction false} TrimTrailing(s: string)
    ensures AllWhitespace(s[TrimStart(s) + |Trim(s)|..])
  {
    var l := TrimLeft(s);
    var r := TrimRight(l);
    var a := TrimStart(s);
    TrimRightRemoved(l);
    assert Trim(s) == r;
    assert s[a + |r|..] == l[|r|..];
  }

  lemma {:induction false} TrimLeftIdentity(s: string)
    requires s == [] || !IsWhitespace(s[0])
    ensures TrimLeft(s) == s
  {
  }

  lemma {:induction false} TrimRightIdentity(s: string)
    requires s == [] || !IsWhitespace(s[|s| - 1])
    ensures TrimRight(s) == s
  {
  }

  /** A string with no whitespace at either end is left alone by `strip()`. */
  lemma {:induction false} TrimStripped(s: string)
    requires Stripped(s)
    ensures Trim(s) == s
  {
    TrimLeftIdentity(s);
    TrimRightIdentity(s);
  }

  lemma {:induction false} TrimLeftPadding(a: string, s: string)
    requires AllWhitespace(a)
    decreases |a|
    ensures TrimLeft(a + s) == TrimLeft(s)
  {
    if a != [] {
      assert (a + s)[0] == a[0];
      assert (a + s)[1..] == a[1..] + s;
      assert IsWhitespace((a + s)[0]);
      TrimLeftPadding(a[1..], s);
      assert TrimLeft(a + s) == TrimLeft((a + s)[1..]);
    } else {
      assert a + s == s;
    }
  }

  lemma {:induction false} TrimRightPadding(s: string, b: string)
    requires AllWhitespace(b)
    decreases |b|
    ensures TrimRight(s + b) == TrimRight(s)
  {
    if b != [] {
      assert (s + b)[|s + b| - 1] == b[|b| - 1];
      assert (s + b)[..|s + b| - 1] == s + b[..|b| - 1];
      assert IsWhitespace((s + b)[|s + b| - 1]);
      TrimRightPadding(s, b[..|b| - 1]);
      assert TrimRight(s + b) == TrimRight((s + b)[..|s + b| - 1]);
    } else {
      assert s + b == s;
    }
  }

  /** `strip()` keeps a prefix that starts and ends with non-whitespace. */
  lemma {:induction false} TrimKeepsPrefix(x: string, n: int)
    requires 0 < n <= |x| && !IsWhitespace(x[0]) && !IsWhitespace(x[n - 1])
    ensures n <= |Trim(x)| && Trim(x)[..n] == x[..n]
  {
    TrimLeftIdentity(x);
    TrimRemovesWhitespace(x);
    var t := |Trim(x)|;
    assert forall k :: t <= k < |x| ==> IsWhitespace(x[k]) by {
      forall k | t <= k < |x| ensures IsWhitespace(x[k]) {
        assert x[t..][k - t] == x[k];
      }
    }
    assert Trim(x) == x[..t];
  }

  /** `strip()` removes whitespace padding and nothing more. */
  lemma {:induction false} TrimPadded(a: string, s: string, b: string)
    requires AllWhitespace(a) && Stripped(s) && AllWhitespace(b)
    ensures Trim(a + s + b) == s
  {
    assert a + s + b == a + (s + b);
    TrimLeftPadding(a, s + b);
    if s == [] {
      assert s + b == [] + b;
      TrimLeftPadding(b, []);
      assert b + [] == b;
    } else {
      TrimLeftIdentity(s + b);
      TrimRightPadding(s, b);
      TrimRightIdentity(s);
    }
  }

  /** `strip()` is idempotent. */
  lemma {:induction false} TrimIdempotent(s: string)
    ensures Trim(Trim(s)) == Trim(s)
  {
    TrimStripped(Trim(s));
  }

  /** `s.strip()` is empty (falsy in Python) exactly when `s` is all whitespace. */
  lemma {:induction false} TrimEmptyIff(s: string)
    ensures Trim(s) == [] <==> AllWhitespace(s)
  {
    var r := Trim(s);
    var i := TrimStart(s);
    TrimRemovesWhitespace(s);
    if r == [] {
      forall k | 0 <= k < |s| ensures IsWhitespace(s[k]) {
        assert s[..i][k] == s[k];
      }
    } else {
      assert r[0] == s[i];
    }
  }

  // ---------------------------------------------------------------- search

  /** `pat` occurs in `s` starting at index `i`. */
  ghost predicate OccursAt(s: string, pat: string, i: int) {
    0 <= i && i + |pat| <= |s| && s[i..i + |pat|] == pat
  }

  /**
   `n` is where the first occurrence of `pat` in `s` starts, or `|s|` when
   there is none: the end of the first piece that `s.split(pat)` yields.
   */
  ghost predicate FirstOrEnd(s: string, pat: string, n: int) {
    && (OccursAt(s, pat, n) || n == |s|)
    && forall j :: 0 <= j < n ==> !OccursAt(s, pat, j)
  }

  /** The first occurrence of `pat` in `s` starts at `i`. */
  ghost predicate FirstAt(s: string, pat: string, i: int) {
    OccursAt(s, pat, i) && FirstOrEnd(s, pat, i)
  }

  lemma {:induction false} OccursShift(s: string, pat: string, j: int)
    requires s != [] && 0 <= j
    ensures OccursAt(s[1..], pat, j) <==> OccursAt(s, pat, j + 1)
  {
    if j + 1 + |pat| <= |s| {
      assert s[1..][j..j + |pat|] == s[j + 1..j + 1 + |pat|];
    }
  }

  /** Index of the first occurrence of `pat` in `s`, as `s.find(pat)` locates it. */
  function Find(s: string, pat: string): (r: Option<nat>)
    decreases |s|
    ensures r.Some? ==> OccursAt(s, pat, r.value) && FirstOrEnd(s, pat, r.value)
    ensures r.None? ==> forall j :: !OccursAt(s, pat, j)
  {
    if |s| < |pat| then None
    else if s[..|pat|] == pat then Some(0)
    else match Find(s[1..], pat)
      case None =>
        FindStepNone(s, pat);
        None
      case Some(k) =>
        FindStepSome(s, pat, k);
        Some(k + 1)
  }

  /** No occurrence at 0 and none in `s[1..]`: none in `s`. */
  lemma {:induction false} FindStepNone(s: string, pat: string)
    requires |s| >= |pat| && s[..|pat|] != pat
    requires forall j :: !OccursAt(s[1..], pat, j)
    ensures forall j :: !OccursAt(s, pat, j)
  {
    forall j | OccursAt(s, pat, j) ensures false {
      if j > 0 { OccursShift(s, pat, j - 1); }
    }
  }

  /** No occurrence at 0 and the first in `s[1..]` at `k`: the first in `s` is at `k + 1`. */
  lemma {:induction false} FindStepSome(s: string, pat: string, k: int)
    requires |s| >= |pat| && s[..|pat|] != pat
    requires 0 <= k && OccursAt(s[1..], pat, k) && FirstOrEnd(s[1..], pat, k)
    ensures OccursAt(s, pat, k + 1) && FirstOrEnd(s, pat, k + 1)
  {
    OccursShift(s, pat, k);
    forall j | 1 <= j < k + 1 ensures !OccursAt(s, pat, j) { OccursShift(s, pat, j - 1); }
  }

  /** The first-or-end position, computed. */
  function FirstOrEndIndex(s: string, pat: string): (n: nat)
    ensures FirstOrEnd(s, pat, n) && n <= |s|
    ensures Contains(s, pat) ==> FirstAt(s, pat, n)
  {
    match Find(s, pat)
    case Some(i) => i
    case None => |s|
  }

  /** Python's `pat in s`. */
  predicate Contains(s: string, pat: string) {
    Find(s, pat).Some?
  }

  lemma {:induction false} ContainsIff(s: string, pat: string)
    ensures Contains(s, pat) <==> exists j :: OccursAt(s, pat, j)
  {
  }

  /** When `x` lacks the first character of `pat`, the first occurrence in `x + pat + y` is right after `x`. */
  lemma {:induction false} FirstAtAfter(x: string, pat: string, y: string)
    requires pat != [] && pat[0] !in x
    ensures FirstAt(x + pat + y, pat, |x|)
  {
    var s := x + pat + y;
    assert s[|x|..|x| + |pat|] == pat;
    forall j | 0 <= j < |x| ensures !OccursAt(s, pat, j) {
      assert s[j] == x[j];
      assert j + |pat| <= |s| ==> s[j..j + |pat|][0] == s[j];
    }
  }

  /** `pat` cannot occur in `x + y` when `x` lacks its first character and `y` is shorter than it. */
  lemma {:induction false} NoOccurrenceInTail(x: string, y: string, pat: string)
    requires pat != [] && pat[0] !in x && |y| < |pat|
    ensures !Contains(x + y, pat)
  {
    var s := x + y;
    forall j | 0 <= j < |x| ensures !OccursAt(s, pat, j) {
      assert s[j] == x[j];
      assert j + |pat| <= |s| ==> s[j..j + |pat|][0] == s[j];
    }
    assert forall j :: !OccursAt(s, pat, j);
  }

  /** The first-or-end position is unique. */
  lemma {:induction false} FirstOrEndUnique(s: string, pat: string, n: int, m: int)
    requires pat != []
    requires FirstOrEnd(s, pat, n) && FirstOrEnd(s, pat, m)
    ensures n == m
  {
  }

  /** An occurrence inside a slice is an occurrence in the whole string. */
  lemma {:induction false} OccursInSlice(s: string, pat: string, a: int, b: int, j: int)
    requires 0 <= a <= b <= |s|
    requires OccursAt(s[a..b], pat, j)
    ensures OccursAt(s, pat, a + j)
  {
    var t := s[a..b];
    forall k | 0 <= k < |pat| ensures s[a + j..a + j + |pat|][k] == pat[k] {
      assert pat[k] == t[j..j + |pat|][k] == t[j + k];
    }
    assert s[a + j..a + j + |pat|] == pat;
  }

  /** A string that does not contain `pat` has no slice that contains it. */
  lemma {:induction false} NotContainsSlice(s: string, pat: string, a: int, b: int)
    requires 0 <= a <= b <= |s|
    requires !Contains(s, pat)
    ensures !Contains(s[a..b], pat)
  {
    if Contains(s[a..b], pat) {
      OccursInSlice(s, pat, a, b, Find(s[a..b], pat).value);
    }
  }

  /** The first `n` characters hold no occurrence when `n` is the first-or-end position. */
  lemma {:induction false} PrefixBeforeFirst(s: string, pat: string, n: int)
    requires pat != [] && FirstOrEnd(s, pat, n)
    ensures 0 <= n <= |s| && !Contains(s[..n], pat)
  {
    if Contains(s[..n], pat) {
      var j := Find(s[..n], pat).value;
      OccursInSlice(s, pat, 0, n, j);
    }
  }

  // ---------------------------------------------------------------- split

  /** Python's `sep.join(parts)`, the inverse of `Split`. */
  function Join(parts: seq<string>, sep: string): string
    requires |parts| >= 1
  {
    if |parts| == 1 then parts[0] else parts[0] + sep + Join(parts[1..], sep)
  }

  lemma {:induction false} JoinCons(x: string, rest: seq<string>, sep: string)
    requires |rest| >= 1
    ensures Join([x] + rest, sep) == x + sep + Join(rest, sep)
  {
    assert ([x] + rest)[1..] == rest;
  }

  /**
   Python's `s.split(sep)` for a non-empty separator: the pieces between
   successive non-overlapping occurrences of `sep`, scanning left to right.
   There is a second piece exactly when `s` contains the separator;
   `SplitPieceFree` shows that no piece contains it and `SplitJoin` that
   joining the pieces gives `s` back.
   */
  function Split(s: string, sep: string): (parts: seq<string>)
    requires sep != []
    decreases |s|
    ensures |parts| >= 1
    ensures !Contains(s, sep) ==> parts == [s]
    ensures Contains(s, sep) ==> |parts| >= 2
  {
    match Find(s, sep)
    case None => [s]
    case Some(i) =>
      assert Contains(s, sep);
      [s[..i]] + Split(s[i + |sep|..], sep)
  }

  /**
   When the first occurrence of `sep` is at `i`, the pieces are the text
   before it followed by the pieces of the text after it.
   */
  lemma {:induction false} SplitUnfold(s: string, sep: string, i: int)
    requires sep != [] && FirstAt(s, sep, i)
    ensures Split(s, sep) == [s[..i]] + Split(s[i + |sep|..], sep)
  {
    FirstOrEndUnique(s, sep, i, Find(s, sep).value);
    var rest := s[i + |sep|..];
    var tail := Split(rest, sep);
    calc {
      Split(s, sep);
      [s[..Find(s, sep).value]] + Split(s[Find(s, sep).value + |sep|..], sep);
      [s[..i]] + tail;
    }
  }

  /** No piece of `s.split(sep)` contains `sep`. */
  lemma {:induction false} SplitPieceFree(s: string, sep: string, n: int)
    requires sep != [] && 0 <= n < |Split(s, sep)|
    decreases |s|
    ensures !Contains(Split(s, sep)[n], sep)
  {
    match Find(s, sep)
    case None =>
    case Some(i) =>
      var rest := s[i + |sep|..];
      SplitUnfold(s, sep, i);
      if n == 0 {
        PrefixBeforeFirst(s, sep, i);
      } else {
        IndexPastHead(Split(s, sep), s[..i], Split(rest, sep), n);
        SplitPieceFree(rest, sep, n - 1);
      }
  }

  /** Joining the pieces of `s.split(sep)` with `sep` gives `s` back. */
  lemma {:induction false} SplitJoin(s: string, sep: string)
    requires sep != []
    decreases |s|
    ensures Join(Split(s, sep), sep) == s
  {
    match Find(s, sep)
    case None =>
    case Some(i) =>
      var rest := s[i + |sep|..];
      SplitUnfold(s, sep, i);
      SplitJoin(rest, sep);
      JoinCons(s[..i], Split(rest, sep), sep);
      AroundOccurrence(s, sep, i);
  }

  lemma {:induction false} AroundOccurrence(s: string, pat: string, i: int)
    requires OccursAt(s, pat, i)
    ensures s == s[..i] + pat + s[i + |pat|..]
  {
    assert s == s[..i] + s[i..i + |pat|] + s[i + |pat|..];
  }

  /** The first piece of `s.split(sep)` ends at the first occurrence, or is all of `s`. */
  lemma {:induction false} SplitFirst(s: string, sep: string, n: int)
    requires sep != [] && FirstOrEnd(s, sep, n)
    ensures 0 <= n <= |s| && Split(s, sep)[0] == s[..n]
  {
    match Find(s, sep)
    case None =>
      assert n == |s|;
    case Some(i) =>
      FirstOrEndUnique(s, sep, i, n);
      SplitUnfold(s, sep, i);
  }

  /**
   The second piece of `s.split(sep)`, which exists when `s` contains `sep`,
   runs from the end of the first occurrence to the next one (or to the end).
   */
  lemma {:induction false} SplitSecond(s: string, sep: string, i: int, m: int)
    requires sep != [] && FirstAt(s, sep, i)
    requires FirstOrEnd(s[i + |sep|..], sep, m)
    ensures |Split(s, sep)| >= 2
    ensures i + |sep| + m <= |s| && Split(s, sep)[1] == s[i + |sep|..i + |sep| + m]
  {
    var rest := s[i + |sep|..];
    SplitUnfold(s, sep, i);
    SplitFirst(rest, sep, m);
    IndexPastHead(Split(s, sep), s[..i], Split(rest, sep), 1);
    PrefixOfSuffix(s, s[i + |sep|..i + |sep| + m], i + |sep|, m, 0);
  }

  /**
   `s.split(open)[1].split(close)[0]`: from just after the first `open` (at
   `i`) up to the first `close` (at `k`) that lies before the next `open` (at
   `m`), or up to that next `open`.
   */
  lemma {:induction false} SplitSecondThenFirst(s: string, open: string, close: string, i: int, m: int, k: int)
    requires open != [] && close != []
    requires FirstAt(s, open, i)
    requires FirstOrEnd(s[i + |open|..], open, m)
    requires FirstOrEnd(s[i + |open|..][..m], close, k)
    ensures i + |open| + k <= |s|
    ensures Split(Split(s, open)[1], close)[0] == s[i + |open|..i + |open| + k]
  {
    var start := i + |open|;
    SplitSecond(s, open, i, m);
    var mid := Split(s, open)[1];
    PrefixOfSuffix(s, mid, start, m, k);
    SplitFirst(mid, close, k);
  }

  /** Every piece of `s.split(sep)` is a slice of `s`. */
  ghost predicate SliceAt(r: string, s: string, a: int, b: int) {
    0 <= a <= b <= |s| && s[a..b] == r
  }

  ghost predicate IsSlice(r: string, s: string) {
    exists a, b :: SliceAt(r, s, a, b)
  }

  lemma {:induction false} SliceOfSlice(r: string, s: string, t: string)
    requires IsSlice(r, s) && IsSlice(s, t)
    ensures IsSlice(r, t)
  {
    var a, b :| SliceAt(r, s, a, b);
    var c, d :| SliceAt(s, t, c, d);
    forall k | 0 <= k < b - a ensures t[c + a..c + b][k] == r[k] {
      assert r[k] == s[a + k] == t[c + a + k];
    }
    assert SliceAt(r, t, c + a, c + b);
  }

  lemma {:induction false} TrimIsSlice(s: string)
    ensures IsSlice(Trim(s), s)
  {
    SliceIsSlice(s, TrimStart(s), TrimStart(s) + |Trim(s)|);
  }

  lemma {:induction false} NestedSlice(s: string, a: int, b: int, c: int, d: int)
    requires 0 <= a <= b <= |s| && 0 <= c <= d <= b - a
    ensures s[a..b][c..d] == s[a + c..a + d]
  {
    forall n | 0 <= n < d - c ensures s[a..b][c..d][n] == s[a + c..a + d][n] {
      assert s[a..b][c..d][n] == s[a..b][c + n] == s[a + c + n];
    }
  }

  lemma {:induction false} SubSliceIsSlice(s: string, a: int, b: int, c: int, d: int)
    requires 0 <= a <= b <= |s| && 0 <= c <= d <= b - a
    ensures IsSlice(s[a..b][c..d], s)
  {
    NestedSlice(s, a, b, c, d);
    assert SliceAt(s[a..b][c..d], s, a + c, a + d);
  }

  /** Stripping a slice of `s` gives a slice of `s`. */
  lemma {:induction false} TrimSliceIsSlice(s: string, piece: string, a: int, b: int)
    requires 0 <= a <= b <= |s| && piece == s[a..b]
    ensures IsSlice(Trim(piece), s)
  {
    var p := TrimStart(piece);
    var r := Trim(piece);
    SubSliceIsSlice(s, a, b, p, p + |r|);
  }

  lemma {:induction false} SliceIsSlice(s: string, a: int, b: int)
    requires 0 <= a <= b <= |s|
    ensures IsSlice(s[a..b], s)
  {
    assert SliceAt(s[a..b], s, a, b);
  }

  /** `strip()` cannot create an occurrence that was not there. */
  lemma {:induction false} TrimKeepsAbsent(s: string, pat: string)
    requires !Contains(s, pat)
    ensures !Contains(Trim(s), pat)
  {
    NotContainsSlice(s, pat, TrimStart(s), TrimStart(s) + |Trim(s)|);
  }

  /** A string without the character `c` cannot contain a pattern that has it. */
  lemma {:induction false} AbsentChar(s: string, pat: string, c: char)
    requires c in pat && c !in s
    ensures !Contains(s, pat)
  {

  }
}
