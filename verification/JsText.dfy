/** The JavaScript string operations the models use: white space, trimming and splitting into lines. */
module JsText {
  import opened Sequences

  /** White space and line terminators, as String.prototype.trim and the regular expression class \s use them. */
  predicate IsSpace(c: char) {
    || c == ' ' || '\t' <= c <= '\r' || c == '\U{00A0}' || c == '\U{1680}'
    || '\U{2000}' <= c <= '\U{200A}' || c == '\U{2028}' || c == '\U{2029}'
    || c == '\U{202F}' || c == '\U{205F}' || c == '\U{3000}' || c == '\U{FEFF}'
  }

  /** The first position from `i` on that holds no white space. */
  function Leading(s: string, i: nat): (r: nat)
    requires i <= |s|
    ensures i <= r <= |s|
    ensures forall k :: i <= k < r ==> IsSpace(s[k])
    ensures r < |s| ==> !IsSpace(s[r])
    decreases |s| - i
  {
    if i < |s| && IsSpace(s[i]) then Leading(s, i + 1) else i
  }

  /** The end of the text before `i` without the white space at its end. */
  function Trailing(s: string, i: nat): (r: nat)
    requires i <= |s|
    ensures r <= i
    ensures r > 0 ==> !IsSpace(s[r - 1])
  {
    if i > 0 && IsSpace(s[i - 1]) then Trailing(s, i - 1) else i
  }

  function Trim(s: string): (r: string)
    ensures r != "" ==> !IsSpace(r[0]) && !IsSpace(r[|r| - 1])
    ensures forall c :: c in r ==> c in s
  {
    var rest := s[Leading(s, 0)..];
    rest[..Trailing(rest, |rest|)]
  }

  /** Text that neither starts nor ends with white space is left alone. */
  lemma TrimKeeps(s: string)
    requires s != "" ==> !IsSpace(s[0]) && !IsSpace(s[|s| - 1])
    ensures Trim(s) == s
  {
  }

  /** Nothing but white space. */
  predicate IsBlank(s: string) {
    forall i :: 0 <= i < |s| ==> IsSpace(s[i])
  }

  /** That is what a test of the trimmed text finds. */
  lemma BlankIffTrimmedEmpty(s: string)
    ensures IsBlank(s) <==> Trim(s) == ""
  {
    var rest := s[Leading(s, 0)..];
    if rest != "" {
      assert !IsSpace(rest[0]);
      TrailingKeeps(rest, |rest|);
    }
  }

  lemma {:induction false} TrailingKeeps(s: string, i: nat)
    requires 0 < i <= |s| && !IsSpace(s[0])
    ensures Trailing(s, i) > 0
  {
    if IsSpace(s[i - 1]) {
      TrailingKeeps(s, i - 1);
    }
  }

  /** text.split(separator) for a separator of one character. */
  function Split(s: string, separator: char): (r: seq<string>)
    ensures |r| > 0
  {
    if s == "" then [""]
    else if s[0] == separator then [""] + Split(s[1..], separator)
    else
      var rest := Split(s[1..], separator);
      [[s[0]] + rest[0]] + rest[1..]
  }

  lemma {:induction false} SplitPieces(s: string, separator: char, k: nat)
    requires k < |Split(s, separator)|
    ensures separator !in Split(s, separator)[k]
    ensures forall c :: c in Split(s, separator)[k] ==> c in s
  {
    if s != "" {
      var rest := Split(s[1..], separator);
      if s[0] == separator {
        if k > 0 { SplitPieces(s[1..], separator, k - 1); }
      } else {
        SplitPieces(s[1..], separator, k);
      }
    }
  }

  /** Splitting around a separator splits both sides. */
  lemma {:induction false} SplitAround(a: string, separator: char, b: string)
    ensures Split(a + [separator] + b, separator) == Split(a, separator) + Split(b, separator)
  {
    var whole := a + [separator] + b;
    if a == "" {
      assert whole[1..] == b;
    } else {
      SplitAround(a[1..], separator, b);
      assert whole[0] == a[0] && whole[1..] == a[1..] + [separator] + b;
      SplitAroundStep(a[0], Split(a[1..], separator), Split(b, separator));
    }
  }

  lemma SplitAroundStep(c: char, left: seq<string>, right: seq<string>)
    requires |left| > 0
    ensures [""] + (left + right) == ([""] + left) + right
    ensures [[c] + (left + right)[0]] + (left + right)[1..] == ([[c] + left[0]] + left[1..]) + right
  {
  }

  lemma {:induction false} SplitWithout(s: string, separator: char)
    requires separator !in s
    ensures Split(s, separator) == [s]
  {
    if s != "" {
      SplitWithout(s[1..], separator);
      assert [s[0]] + s[1..] == s;
    }
  }

  /** Joining non-empty lists of pieces free of the separator and splitting again is the identity. */
  lemma {:induction false} SplitJoin(parts: seq<string>, separator: char)
    requires |parts| > 0
    requires forall i :: 0 <= i < |parts| ==> separator !in parts[i]
    ensures Split(Join(parts, [separator]), separator) == parts
  {
    SplitWithout(parts[0], separator);
    if |parts| > 1 {
      SplitAround(parts[0], separator, Join(parts[1..], [separator]));
      SplitJoin(parts[1..], separator);
    }
  }
}
