/** Slicing and truncating UTF-16 text without splitting a surrogate pair. */
module Utf16 {

  newtype CodeUnit = x: int | 0 <= x < 0x1_0000

  type Text = seq<CodeUnit>

  datatype End = Omitted | At(index: int)

  predicate IsHighSurrogate(u: CodeUnit) {
    0xd800 <= u <= 0xdbff
  }

  predicate IsLowSurrogate(u: CodeUnit) {
    0xdc00 <= u <= 0xdfff
  }

  /** A concatenation of single units that are no surrogates and of surrogate pairs (Unicode, section 3.9). */
  ghost predicate WellFormed(s: Text) {
    || s == []
    || (!IsHighSurrogate(s[0]) && !IsLowSurrogate(s[0]) && WellFormed(s[1..]))
    || (|s| >= 2 && IsHighSurrogate(s[0]) && IsLowSurrogate(s[1]) && WellFormed(s[2..]))
  }

  /** Every surrogate has its partner next to it. */
  ghost predicate Paired(s: Text) {
    && (forall i :: 0 <= i < |s| && IsHighSurrogate(s[i]) ==> i + 1 < |s| && IsLowSurrogate(s[i + 1]))
    && (forall i :: 0 <= i < |s| && IsLowSurrogate(s[i]) ==> i > 0 && IsHighSurrogate(s[i - 1]))
  }

  /** A cut at `i` would separate the halves of a surrogate pair. */
  ghost predicate SplitsPair(s: Text, i: int) {
    0 < i < |s| && IsHighSurrogate(s[i - 1]) && IsLowSurrogate(s[i])
  }

  lemma {:induction false} WellFormedIffPaired(s: Text)
    ensures WellFormed(s) <==> Paired(s)
  {
    if s == [] {
    } else if !IsHighSurrogate(s[0]) && !IsLowSurrogate(s[0]) {
      WellFormedIffPaired(s[1..]);
      assert Paired(s) ==> Paired(s[1..]) by {
        assert forall i :: 0 <= i < |s[1..]| ==> s[1..][i] == s[i + 1];
      }
      assert Paired(s[1..]) ==> Paired(s) by {
        assert forall i :: 1 <= i < |s| ==> s[1..][i - 1] == s[i];
      }
    } else if |s| >= 2 && IsHighSurrogate(s[0]) && IsLowSurrogate(s[1]) {
      WellFormedIffPaired(s[2..]);
      assert Paired(s) ==> Paired(s[2..]) by {
        assert forall i :: 0 <= i < |s[2..]| ==> s[2..][i] == s[i + 2];
      }
      assert Paired(s[2..]) ==> Paired(s) by {
        assert forall i :: 2 <= i < |s| ==> s[2..][i - 2] == s[i];
      }
    }
  }

  /** Cutting well-formed text leaves it well-formed exactly when neither cut splits a pair. */
  lemma CutWellFormed(s: Text, from: nat, to: nat)
    requires WellFormed(s) && from < to <= |s|
    ensures WellFormed(s[from..to]) <==> !SplitsPair(s, from) && !SplitsPair(s, to)
  {
    WellFormedIffPaired(s);
    var r := s[from..to];
    WellFormedIffPaired(r);
    assert forall i :: 0 <= i < |r| ==> r[i] == s[from + i];
    assert r[0] == s[from] && r[|r| - 1] == s[to - 1];
    if !SplitsPair(s, from) && !SplitsPair(s, to) {
      forall i | 0 <= i < |r| && IsHighSurrogate(r[i]) ensures i + 1 < |r| && IsLowSurrogate(r[i + 1]) {
        assert IsLowSurrogate(s[from + i + 1]);
      }
      forall i | 0 <= i < |r| && IsLowSurrogate(r[i]) ensures i > 0 && IsHighSurrogate(r[i - 1]) {
        assert IsHighSurrogate(s[from + i - 1]);
      }
    }
  }

  function ClampIndex(len: nat, i: int): (r: nat)
    ensures r <= len
  {
    if i < 0 then (if len + i > 0 then len + i else 0)
    else if i < len then i else len
  }

  /** The cut loses at most a unit at each end, splits no pair, and holds every other such cut between the bounds. */
  ghost predicate WidestWholeCut(s: Text, lo: nat, hi: nat, from: nat, to: nat) {
    && lo <= from <= to <= hi <= |s|
    && from - lo <= 1 && hi - to <= 1
    && (from < to ==> !SplitsPair(s, from) && !SplitsPair(s, to))
    && forall a: nat, b: nat :: lo <= a < b <= hi && !SplitsPair(s, a) && !SplitsPair(s, b) ==> from <= a && b <= to
  }

  ghost predicate WidestWholeSlice(s: Text, lo: nat, hi: nat, r: Text) {
    exists from: nat, to: nat :: WidestWholeCut(s, lo, hi, from, to) && r == s[from..to]
  }

  lemma WholeCutWellFormed(s: Text, lo: nat, hi: nat, from: nat, to: nat)
    requires WellFormed(s) && WidestWholeCut(s, lo, hi, from, to)
    ensures WellFormed(s[from..to])
  {
    if from < to {
      CutWellFormed(s, from, to);
    }
  }

  /** The two bounds of the plain slice, in order. */
  function Bounds(len: nat, start: int, end: End): (nat, nat) {
    var a := ClampIndex(len, start);
    var b := if end.Omitted? then len else ClampIndex(len, end.index);
    if b < a then (b, a) else (a, b)
  }

  /** The bounds of a slice of a text of three parts: the middle one, whether its ends are counted from the start or, when
      negative, from the end; indices beyond the text stop at its ends, and crossed ones change places. */
  lemma BoundsMean(a: nat, b: nat, c: nat, beyond: nat)
    ensures var len := a + b + c;
            && Bounds(len, a, At(a + b)) == (a, a + b) == Bounds(len, a + b, At(a))
            && (b + c > 0 ==> Bounds(len, -((b + c) as int), At(a + b)) == (a, a + b))
            && (c > 0 ==> Bounds(len, a, At(-(c as int))) == (a, a + b))
            && Bounds(len, a, Omitted) == (a, len) == Bounds(len, a, At(len + beyond))
            && (len + beyond > 0 ==> Bounds(len, -((len + beyond) as int), At(a)) == (0, a))
            && Bounds(len, len + beyond, Omitted) == (len, len)
  {
  }

  /** A middle part between cuts that split no pair is returned as it is. */
  lemma WholePartKept(a: Text, b: Text, c: Text, r: Text)
    requires var s := a + b + c;
             && !SplitsPair(s, |a|) && !SplitsPair(s, |a| + |b|) && WidestWholeSlice(s, |a|, |a| + |b|, r)
    ensures r == b
  {
    var s := a + b + c;
    var from: nat, to: nat :| WidestWholeCut(s, |a|, |a| + |b|, from, to) && r == s[from..to];
    assert s[|a|..|a| + |b|] == b;
    if b == [] {
      assert from == to;
    }
  }

  method SliceUtf16Safe(input: Text, start: int, end: End) returns (r: Text)
    ensures WidestWholeSlice(input, Bounds(|input|, start, end).0, Bounds(|input|, start, end).1, r)
    ensures WellFormed(input) ==> WellFormed(r)
  {
    hide WellFormed;
    var len := |input|;
    var from := ClampIndex(len, start);
    var to := if end.Omitted? then len else ClampIndex(len, end.index);
    if to < from {
      from, to := to, from;
    }
    ghost var lo, hi := from, to;
    if from > 0 && from < len {
      if IsLowSurrogate(input[from]) && IsHighSurrogate(input[from - 1]) {
        from := from + 1;
      }
    }
    if to > 0 && to < len {
      if IsHighSurrogate(input[to - 1]) && IsLowSurrogate(input[to]) {
        to := to - 1;
      }
    }
    // String.prototype.slice gives the empty string when the bounds have crossed.
    r := if from <= to then input[from..to] else [];
    ghost var f, t := if from <= to then from else lo, if from <= to then to else lo;
    assert WidestWholeCut(input, lo, hi, f, t) && r == input[f..t];
    if WellFormed(input) {
      WholeCutWellFormed(input, lo, hi, f, t);
    }
  }

  method TruncateUtf16Safe(input: Text, maxLen: real) returns (r: Text)
    ensures |r| <= |input| && r == input[..|r|] && (maxLen < 0.0 ==> r == []) && (r != [] ==> |r| as real <= maxLen)
    ensures !SplitsPair(input, |r|)
    ensures forall k: nat :: k <= |input| && k as real <= maxLen && !SplitsPair(input, k) ==> k <= |r|
    // On well-formed text: the longest well-formed prefix within the limit.
    ensures WellFormed(input) ==> WellFormed(r)
    ensures WellFormed(input) ==> forall k: nat :: |r| < k <= |input| && k as real <= maxLen ==> !WellFormed(input[..k])
  {
    var limit := if maxLen.Floor > 0 then maxLen.Floor else 0;
    if |input| <= limit {
      assert input[..|input|] == input;
      return input;
    }
    r := SliceUtf16Safe(input, 0, At(limit));
    ghost var from: nat, to: nat :| WidestWholeCut(input, 0, limit, from, to) && r == input[from..to];
    assert from < to ==> from == 0;
    forall k: nat | |r| < k <= limit ensures SplitsPair(input, k) {
      assert !SplitsPair(input, 0);
    }
    if WellFormed(input) {
      forall k: nat | |r| < k <= limit ensures !WellFormed(input[..k]) {
        CutWellFormed(input, 0, k);
        assert input[0..k] == input[..k];
      }
    }
  }
}
