/**
 * The few JavaScript string operations the selector code relies on:
 * `String.prototype.split` on a set of one-character separators,
 * `trim`, `indexOf(sub) !== -1` and `substr(0, 4) === "http"`.
 */
module Strings {

  datatype Option<T> = None | Some(value: T)

  /** The characters JavaScript's `\s` and `String.prototype.trim` treat as white space. */
  predicate IsSpace(c: char) {
    || c == ' ' || '\t' <= c <= '\r'
    || c == '\U{00A0}' || c == '\U{1680}' || '\U{2000}' <= c <= '\U{200A}'
    || c == '\U{2028}' || c == '\U{2029}' || c == '\U{202F}' || c == '\U{205F}'
    || c == '\U{3000}' || c == '\U{FEFF}'
  }

  /** `s` with its leading white space removed. */
  function TrimStart(s: string): (r: string)
    ensures |r| <= |s|
  {
    if s == [] then []
    else if IsSpace(s[0]) then TrimStart(s[1..])
    else s
  }

  /** `s` with its trailing white space removed. */
  function TrimEnd(s: string): (r: string)
    ensures |r| <= |s|
  {
    if s == [] then []
    else if IsSpace(s[|s| - 1]) then TrimEnd(s[..|s| - 1])
    else s
  }

  /** `String.prototype.trim`. */
  function Trim(s: string): (r: string)
    ensures |r| <= |s|
  {
    TrimEnd(TrimStart(s))
  }

  /** `TrimStart` removes exactly the leading run of white space. */
  lemma {:induction false} TrimStartShape(s: string)
    ensures var r := TrimStart(s);
      r == s[|s| - |r|..] && (r == [] || !IsSpace(r[0]))
      && forall i :: 0 <= i < |s| - |r| ==> IsSpace(s[i])
  {
    if s != [] && IsSpace(s[0]) {
      TrimStartShape(s[1..]);
    }
  }

  /** `TrimEnd` removes exactly the trailing run of white space. */
  lemma {:induction false} TrimEndShape(s: string)
    ensures var r := TrimEnd(s);
      r == s[..|r|] && (r == [] || !IsSpace(r[|r| - 1]))
      && forall i :: |r| <= i < |s| ==> IsSpace(s[i])
  {
    if s != [] && IsSpace(s[|s| - 1]) {
      TrimEndShape(s[..|s| - 1]);
    }
  }

  /**
   * `Trim(s)` is the slice `s[i..i + |Trim(s)|]` for the number `i` of
   * leading blanks: it neither starts nor ends with white space, and only
   * white space lies outside it.
   */
  lemma TrimIsSlice(s: string) returns (i: nat)
    ensures i + |Trim(s)| <= |s| && Trim(s) == s[i..i + |Trim(s)|]
    ensures Trim(s) == [] || (!IsSpace(Trim(s)[0]) && !IsSpace(Trim(s)[|Trim(s)| - 1]))
    ensures forall k :: 0 <= k < i ==> IsSpace(s[k])
    ensures forall k :: i + |Trim(s)| <= k < |s| ==> IsSpace(s[k])
  {
    var t := TrimStart(s);
    TrimStartShape(s);
    i := |s| - |t|;
    var r := TrimEnd(t);
    TrimEndShape(t);
    assert r == t[..|r|] && t == s[i..];
    assert s[i..][..|r|] == s[i..i + |r|];
    if r != [] {
      assert t[0] == r[0];
    }
    forall k | i + |r| <= k < |s| ensures IsSpace(s[k]) {
      assert s[k] == t[k - i];
    }
  }

  /** `trim` leaves no white space at either end. */
  lemma TrimTrimmed(s: string)
    ensures Trim(s) == [] || (!IsSpace(Trim(s)[0]) && !IsSpace(Trim(s)[|Trim(s)| - 1]))
  {
    var _ := TrimIsSlice(s);
  }

  /** Trimming a string that is already trimmed changes nothing. */
  lemma TrimOfTrimmed(s: string)
    requires s == [] || (!IsSpace(s[0]) && !IsSpace(s[|s| - 1]))
    ensures Trim(s) == s
  {
  }

  /** Trailing white space does not change what `trim` returns. */
  lemma TrimDropsTrailingSpace(s: string, c: char)
    requires s != [] && !IsSpace(s[0]) && IsSpace(c)
    ensures Trim(s + [c]) == Trim(s)
  {
    assert (s + [c])[..|s|] == s;
  }

  /** The CSS combinators `+`, `~` and `>`. */
  predicate IsCombinator(c: char) {
    c == '+' || c == '~' || c == '>'
  }

  /**
   * The separator sets the source splits on: `:` (selector normalisation),
   * the regular expression `\s|\+|~|>` (`extract_parents`) and a line feed
   * (`find_in_path`).
   */
  datatype Separators = Colon | ParentCombinators | LineFeed

  predicate IsSeparator(c: char, seps: Separators) {
    match seps
    case Colon => c == ':'
    case LineFeed => c == '\n'
    case ParentCombinators => IsSpace(c) || IsCombinator(c)
  }

  /** JavaScript `s.split(sep)` where the separator is any character of `seps`. */
  function Split(s: string, seps: Separators): (r: seq<string>)
    ensures |r| >= 1
    ensures r[|r| - 1] == LastSegment(s, seps)
  {
    if s == [] then [""]
    else
      var init := Split(s[..|s| - 1], seps);
      if IsSeparator(s[|s| - 1], seps) then init + [""]
      else init[..|init| - 1] + [init[|init| - 1] + [s[|s| - 1]]]
  }

  /** The text after the last separator of `s` (all of `s` when it has none). */
  function LastSegment(s: string, seps: Separators): (r: string)
    ensures |r| <= |s|
    ensures forall i :: 0 <= i < |r| ==> !IsSeparator(r[i], seps)
  {
    if s == [] then []
    else if IsSeparator(s[|s| - 1], seps) then []
    else LastSegment(s[..|s| - 1], seps) + [s[|s| - 1]]
  }

  /** With a separator present, the last segment is shorter than the whole. */
  lemma LastSegmentShorter(s: string, seps: Separators)
    requires !NoSeparator(s, seps)
    ensures |LastSegment(s, seps)| < |s|
  {
    LastSegmentShape(s, seps);
  }

  /** The last segment is a suffix, preceded by a separator unless it is all of `s`. */
  lemma {:induction false} LastSegmentShape(s: string, seps: Separators)
    ensures var r := LastSegment(s, seps);
      r == s[|s| - |r|..] && (|r| < |s| ==> IsSeparator(s[|s| - |r| - 1], seps))
  {
    if s != [] && !IsSeparator(s[|s| - 1], seps) {
      var p := s[..|s| - 1];
      LastSegmentShape(p, seps);
      var r := LastSegment(p, seps);
      assert LastSegment(s, seps) == r + [s[|s| - 1]];
      SuffixSnoc(s, r);
      if |r| < |p| {
        assert s[|s| - |r| - 2] == p[|p| - |r| - 1];
      }
    }
  }

  /** A suffix of all but the last element, extended by the last element, is a suffix. */
  lemma SuffixSnoc(s: string, r: string)
    requires s != [] && |r| < |s| && r == s[..|s| - 1][|s| - 1 - |r|..]
    ensures r + [s[|s| - 1]] == s[|s| - 1 - |r|..]
  {
    var t := s[|s| - 1 - |r|..];
    forall k | 0 <= k < |t| ensures (r + [s[|s| - 1]])[k] == t[k] {
      if k < |r| {
        assert r[k] == s[..|s| - 1][|s| - 1 - |r| + k];
      }
    }
  }

  /** The text before the first separator of `s` (all of `s` when it has none). */
  function FirstSegment(s: string, seps: Separators): (r: string)
    ensures |r| <= |s| && r == s[..|r|]
    ensures |r| < |s| ==> IsSeparator(s[|r|], seps)
    ensures forall i :: 0 <= i < |r| ==> !IsSeparator(r[i], seps)
  {
    if s == [] then []
    else if IsSeparator(s[0], seps) then []
    else [s[0]] + FirstSegment(s[1..], seps)
  }

  predicate NoSeparator(s: string, seps: Separators) {
    forall i :: 0 <= i < |s| ==> !IsSeparator(s[i], seps)
  }

  /** `split` yields a single piece exactly when no separator occurs. */
  lemma {:induction false} SplitSingle(s: string, seps: Separators)
    ensures |Split(s, seps)| == 1 <==> NoSeparator(s, seps)
    ensures NoSeparator(s, seps) ==> Split(s, seps) == [s]
  {
    SplitLength(s, seps);
    if NoSeparator(s, seps) {
      SplitWhole(s, seps);
    }
  }

  lemma {:induction false} SplitLength(s: string, seps: Separators)
    ensures |Split(s, seps)| == 1 <==> NoSeparator(s, seps)
  {
    if s != [] {
      SplitLength(s[..|s| - 1], seps);
      NoSeparatorInit(s, seps);
    }
  }

  lemma {:induction false} SplitWhole(s: string, seps: Separators)
    requires NoSeparator(s, seps)
    ensures Split(s, seps) == [s]
  {
    SplitLength(s, seps);
    LastSegmentWhole(s, seps);
    var r := Split(s, seps);
    assert r == [r[0]];
  }

  lemma {:induction false} LastSegmentWhole(s: string, seps: Separators)
    requires NoSeparator(s, seps)
    ensures LastSegment(s, seps) == s
  {
    if s != [] {
      var p := s[..|s| - 1];
      NoSeparatorInit(s, seps);
      LastSegmentWhole(p, seps);
      assert p + [s[|s| - 1]] == s;
    }
  }

  lemma NoSeparatorInit(s: string, seps: Separators)
    requires s != []
    ensures NoSeparator(s, seps) <==> NoSeparator(s[..|s| - 1], seps) && !IsSeparator(s[|s| - 1], seps)
  {
    var p := s[..|s| - 1];
    if NoSeparator(p, seps) && !IsSeparator(s[|s| - 1], seps) {
      forall i | 0 <= i < |s| ensures !IsSeparator(s[i], seps) {
        if i < |p| { assert s[i] == p[i]; }
      }
    }
  }

  lemma {:induction false} SplitAtLeast(s: string, seps: Separators)
    ensures !NoSeparator(s, seps) ==> |Split(s, seps)| >= 2
  {
    if s != [] {
      var p := s[..|s| - 1];
      SplitAtLeast(p, seps);
      if !NoSeparator(s, seps) && !IsSeparator(s[|s| - 1], seps) {
        var i :| 0 <= i < |s| && IsSeparator(s[i], seps);
        assert p[i] == s[i];
      }
    }
  }

  /** When there is a separator, the last piece of `split` is strictly shorter than the whole. */
  lemma {:induction false} LastPieceShorter(s: string, seps: Separators)
    requires |Split(s, seps)| > 1
    ensures |LastSegment(s, seps)| < |s|
  {
    SplitSingle(s, seps);
    if !IsSeparator(s[|s| - 1], seps) {
      var p := s[..|s| - 1];
      var i :| 0 <= i < |s| && IsSeparator(s[i], seps);
      assert p[i] == s[i];
      SplitAtLeast(p, seps);
      LastPieceShorter(p, seps);
    }
  }

  /** The first piece of `split` is the text before the first separator. */
  lemma {:induction false} SplitFirst(s: string, seps: Separators)
    ensures Split(s, seps)[0] == FirstSegment(s, seps)
  {
    if s != [] {
      var p := s[..|s| - 1];
      var c := s[|s| - 1];
      assert p + [c] == s;
      SplitFirst(p, seps);
      FirstSegmentExtend(p, c, seps);
      SplitStep(s, seps);
      if NoSeparator(p, seps) {
        SplitSingle(p, seps);
        FirstSegmentWhole(p, seps);
      } else {
        SplitAtLeast(p, seps);
      }
    }
  }

  /** One step of `split`: how the first piece changes when a character is appended. */
  lemma SplitStep(s: string, seps: Separators)
    requires s != []
    ensures var init := Split(s[..|s| - 1], seps);
      Split(s, seps)[0] ==
        if IsSeparator(s[|s| - 1], seps) || |init| > 1 then init[0] else init[0] + [s[|s| - 1]]
  {
  }

  lemma FirstSegmentWhole(s: string, seps: Separators)
    requires NoSeparator(s, seps)
    ensures FirstSegment(s, seps) == s
  {
  }

  lemma {:induction false} FirstSegmentExtend(p: string, c: char, seps: Separators)
    ensures FirstSegment(p + [c], seps) ==
      if NoSeparator(p, seps) then (if IsSeparator(c, seps) then p else p + [c]) else FirstSegment(p, seps)
  {
    if p != [] {
      assert (p + [c])[1..] == p[1..] + [c];
      FirstSegmentExtend(p[1..], c, seps);
    }
  }

  /** JavaScript `s.indexOf(sub) !== -1`. */
  predicate Contains(s: string, sub: string) {
    exists p :: 0 <= p <= |s| && OccursAt(s, sub, p)
  }

  /** `sub` occurs in `s` starting at index `p`. */
  predicate OccursAt(s: string, sub: string, p: int) {
    0 <= p <= |s| - |sub| && s[p..p + |sub|] == sub
  }

  /** JavaScript `s.substr(0, |p|) === p`. */
  predicate StartsWith(s: string, p: string) {
    |p| <= |s| && s[..|p|] == p
  }

  /** The default comparison of `Array.prototype.sort`: `a` comes strictly before `b`. */
  predicate Before(a: string, b: string) {
    b != [] && (a == [] || a[0] < b[0] || (a[0] == b[0] && Before(a[1..], b[1..])))
  }

  predicate BeforeOrSame(a: string, b: string) {
    a == b || Before(a, b)
  }

  lemma {:induction false} BeforeIrreflexive(a: string)
    ensures !Before(a, a)
  {
    if a != [] {
      BeforeIrreflexive(a[1..]);
    }
  }

  lemma {:induction false} BeforeTransitive(a: string, b: string, c: string)
    requires Before(a, b) && Before(b, c)
    ensures Before(a, c)
  {
    if a != [] && a[0] == b[0] && b[0] == c[0] {
      BeforeTransitive(a[1..], b[1..], c[1..]);
    }
  }

  /** Any two different strings are ordered one way or the other, and only one way. */
  lemma {:induction false} BeforeTotal(a: string, b: string)
    ensures a != b ==> (Before(a, b) <==> !Before(b, a))
  {
    if a != [] && b != [] && a[0] == b[0] {
      BeforeTotal(a[1..], b[1..]);
      if a[1..] == b[1..] {
        assert a == [a[0]] + a[1..] && b == [b[0]] + b[1..];
      }
    }
    if a == b {
      BeforeIrreflexive(a);
    }
  }

  predicate Sorted(s: seq<string>) {
    forall i, j :: 0 <= i < j < |s| ==> BeforeOrSame(s[i], s[j])
  }

  /** `x` put in front of the first element of `s` it does not come after. */
  function Insert(x: string, s: seq<string>): (r: seq<string>)
    ensures multiset(r) == multiset(s) + multiset{x}
  {
    if s == [] then [x]
    else if BeforeOrSame(x, s[0]) then [x] + s
    else
      assert s == [s[0]] + s[1..];
      [s[0]] + Insert(x, s[1..])
  }

  /** `arr.sort()` with no comparator: ascending order, same elements. */
  function SortStrings(s: seq<string>): (r: seq<string>)
    ensures multiset(r) == multiset(s)
  {
    if s == [] then []
    else
      assert s == [s[0]] + s[1..];
      Insert(s[0], SortStrings(s[1..]))
  }

  lemma {:induction false} InsertSorted(x: string, s: seq<string>)
    requires Sorted(s)
    ensures Sorted(Insert(x, s))
  {
    if s != [] && !BeforeOrSame(x, s[0]) {
      InsertSorted(x, s[1..]);
      BeforeTotal(x, s[0]);
      InsertLowerBound(s[0], x, s[1..]);
    } else if s != [] {
      forall k | 0 <= k < |s| ensures BeforeOrSame(x, s[k]) {
        if x != s[0] && s[0] != s[k] {
          BeforeTransitive(x, s[0], s[k]);
        }
      }
    }
  }

  /** A lower bound of `x` and of every element of `s` bounds `Insert(x, s)`. */
  lemma {:induction false} InsertLowerBound(y: string, x: string, s: seq<string>)
    requires BeforeOrSame(y, x)
    requires forall k :: 0 <= k < |s| ==> BeforeOrSame(y, s[k])
    ensures forall k :: 0 <= k < |Insert(x, s)| ==> BeforeOrSame(y, Insert(x, s)[k])
  {
    if s != [] && !BeforeOrSame(x, s[0]) {
      InsertLowerBound(y, x, s[1..]);
    }
  }

  lemma {:induction false} SortStringsSorted(s: seq<string>)
    ensures Sorted(SortStrings(s))
  {
    if s != [] {
      SortStringsSorted(s[1..]);
      InsertSorted(s[0], SortStrings(s[1..]));
    }
  }
}
