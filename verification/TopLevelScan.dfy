/** The quote-aware scanners of the temp-path guardrail: matching parentheses and splitting arguments. */
module TopLevelScan {
  import opened Sequences
  import opened JsText

  // ----- quotes -----

  datatype Quote = Unquoted | Quoted(mark: char, escaped: bool)

  predicate IsQuoteMark(c: char) {
    c == '\'' || c == '"' || c == '`'
  }

  function QuoteStep(q: Quote, c: char): Quote {
    if q.Unquoted? then (if IsQuoteMark(c) then Quoted(c, false) else Unquoted)
    else if q.escaped then Quoted(q.mark, false)
    else if c == '\\' then Quoted(q.mark, true)
    else if c == q.mark then Unquoted
    else q
  }

  /** The quote state in front of position `i` when scanning starts at `from`. */
  function QuoteAt(source: string, from: nat, i: nat): Quote
    requires i <= |source|
    decreases i
  {
    if i <= from then Unquoted else QuoteStep(QuoteAt(source, from, i - 1), source[i - 1])
  }

  /** The character at `i` is neither inside quotes nor a quote mark. */
  predicate Plain(source: string, from: nat, i: nat)
    requires i < |source|
  {
    QuoteAt(source, from, i).Unquoted? && !IsQuoteMark(source[i])
  }

  /** The mutable scan state. */
  class QuoteScanState {
    var quote: char
    var inQuote: bool
    var escaped: bool

    constructor ()
      ensures Now() == Unquoted && Valid()
    {
      quote, inQuote, escaped := ' ', false, false;
    }

    ghost predicate Valid()
      reads this
    {
      !inQuote ==> !escaped
    }

    ghost function Now(): Quote
      reads this
    {
      if inQuote then Quoted(quote, escaped) else Unquoted
    }

    method BeginQuotedSection(c: char) returns (began: bool)
      requires Valid() && !inQuote
      modifies this
      ensures Valid() && Now() == QuoteStep(old(Now()), c)
      ensures began <==> IsQuoteMark(c)
    {
      if c != '\'' && c != '"' && c != '`' {
        return false;
      }
      quote, inQuote := c, true;
      return true;
    }

    method ConsumeQuotedChar(c: char) returns (consumed: bool)
      requires Valid()
      modifies this
      ensures Valid()
      ensures consumed <==> old(Now()).Quoted?
      ensures Now() == if consumed then QuoteStep(old(Now()), c) else old(Now())
    {
      if !inQuote {
        return false;
      }
      if escaped {
        escaped := false;
        return true;
      }
      if c == '\\' {
        escaped := true;
        return true;
      }
      if c == quote {
        inQuote := false;
      }
      return true;
    }
  }

  // ----- matching parentheses -----

  /** Opening minus closing parentheses outside quotes in source[from..i]. */
  function Balance(source: string, from: nat, i: nat): int
    requires i <= |source|
    decreases i
  {
    if i <= from then 0
    else Balance(source, from, i - 1)
         + if !Plain(source, from, i - 1) then 0
           else if source[i - 1] == '(' then 1
           else if source[i - 1] == ')' then -1
           else 0
  }

  /** At `i` the closing parentheses after `from` outnumber the opening ones for the first time. */
  ghost predicate ClosesAt(source: string, from: nat, i: int) {
    && from <= i < |source|
    && Balance(source, from, i + 1) == -1
    && forall j :: from < j <= i ==> Balance(source, from, j) >= 0
  }

  ghost predicate NeverCloses(source: string, from: nat) {
    forall i :: !ClosesAt(source, from, i)
  }

  method FindMatchingParen(source: string, openIndex: nat) returns (r: int)
    ensures r >= 0 ==> ClosesAt(source, openIndex + 1, r)
    ensures r < 0 ==> r == -1 && NeverCloses(source, openIndex + 1)
  {
    ghost var from := openIndex + 1;
    var depth := 1;
    var quoteState := new QuoteScanState();
    var i := openIndex + 1;
    while i < |source|
      invariant openIndex + 1 <= i && (i <= |source| || i == openIndex + 1)
      invariant fresh(quoteState) && quoteState.Valid()
      invariant i <= |source| ==> quoteState.Now() == QuoteAt(source, openIndex + 1, i)
      invariant i <= |source| ==> depth == 1 + Balance(source, openIndex + 1, i)
      invariant depth >= 1
      invariant forall j :: from < j <= i && j <= |source| ==> Balance(source, from, j) >= 0
    {
      var c := source[i];
      var consumed := quoteState.ConsumeQuotedChar(c);
      if consumed {
        i := i + 1;
        continue;
      }
      var began := quoteState.BeginQuotedSection(c);
      if began {
        i := i + 1;
        continue;
      }
      if c == '(' {
        depth := depth + 1;
        i := i + 1;
        continue;
      }
      if c == ')' {
        depth := depth - 1;
        if depth == 0 {
          return i;
        }
      }
      i := i + 1;
    }
    return -1;
  }

  // ----- splitting arguments -----

  datatype Depths = Depths(paren: nat, bracket: nat, brace: nat)

  function Lower(n: nat): nat {
    if n > 0 then n - 1 else 0
  }

  function DepthStep(d: Depths, c: char): Depths {
    if c == '(' then d.(paren := d.paren + 1)
    else if c == ')' then d.(paren := Lower(d.paren))
    else if c == '[' then d.(bracket := d.bracket + 1)
    else if c == ']' then d.(bracket := Lower(d.bracket))
    else if c == '{' then d.(brace := d.brace + 1)
    else if c == '}' then d.(brace := Lower(d.brace))
    else d
  }

  function DepthsAt(source: string, i: nat): Depths
    requires i <= |source|
    decreases i
  {
    if i == 0 then Depths(0, 0, 0)
    else if Plain(source, 0, i - 1) then DepthStep(DepthsAt(source, i - 1), source[i - 1])
    else DepthsAt(source, i - 1)
  }

  predicate IsCut(source: string, i: nat)
    requires i < |source|
  {
    Plain(source, 0, i) && source[i] == ',' && DepthsAt(source, i) == Depths(0, 0, 0)
  }

  /** The commas before `n` outside quotes and brackets, in order. */
  function Cuts(source: string, n: nat): (r: seq<nat>)
    requires n <= |source|
    ensures forall a :: 0 <= a < |r| ==> r[a] < n && IsCut(source, r[a])
    ensures forall a, b :: 0 <= a < b < |r| ==> r[a] < r[b]
    ensures forall k :: 0 <= k < n && IsCut(source, k) ==> k in r
  {
    if n == 0 then []
    else if IsCut(source, n - 1) then Cuts(source, n - 1) + [n - 1]
    else Cuts(source, n - 1)
  }

  /** Where the piece after the first `k` cuts begins. */
  function PieceStart(cuts: seq<nat>, k: nat): nat
    requires k <= |cuts|
  {
    if k == 0 then 0 else cuts[k - 1] + 1
  }

  ghost predicate CutsWithin(source: string, cuts: seq<nat>) {
    && (forall k :: 0 <= k < |cuts| ==> cuts[k] < |source|)
    && (forall a, b :: 0 <= a < b < |cuts| ==> cuts[a] < cuts[b])
  }

  /** The pieces closed by the first `k` cuts. */
  ghost function ClosedPieces(source: string, cuts: seq<nat>, k: nat): (r: seq<string>)
    requires CutsWithin(source, cuts) && k <= |cuts|
    ensures |r| == k
  {
    if k == 0 then [] else ClosedPieces(source, cuts, k - 1) + [source[PieceStart(cuts, k - 1)..cuts[k - 1]]]
  }

  /** All pieces between the cuts. */
  ghost function Pieces(source: string): (r: seq<string>)
    ensures |r| == |Cuts(source, |source|)| + 1
  {
    var cuts := Cuts(source, |source|);
    ClosedPieces(source, cuts, |cuts|) + [source[PieceStart(cuts, |cuts|)..]]
  }

  ghost function TrimAll(pieces: seq<string>): (r: seq<string>)
    ensures |r| == |pieces|
  {
    seq(|pieces|, i requires 0 <= i < |pieces| => Trim(pieces[i]))
  }

  /** The trimmed pieces, without the last one when it is blank. */
  ghost function Arguments(source: string): seq<string> {
    var pieces := Pieces(source);
    var last := |pieces| - 1;
    if IsBlank(pieces[last]) then TrimAll(pieces[..last]) else TrimAll(pieces)
  }

  lemma {:induction false} ClosedPiecesExtend(source: string, cuts: seq<nat>, cut: nat, k: nat)
    requires CutsWithin(source, cuts + [cut]) && k <= |cuts|
    ensures CutsWithin(source, cuts)
    ensures ClosedPieces(source, cuts + [cut], k) == ClosedPieces(source, cuts, k)
  {
    assert forall i :: 0 <= i < |cuts| ==> (cuts + [cut])[i] == cuts[i];
    if k > 0 {
      ClosedPiecesExtend(source, cuts, cut, k - 1);
    }
  }

  /** After `i` characters: the pieces closed so far, trimmed, and the piece being read. */
  ghost predicate Progress(source: string, i: nat, out: seq<string>, current: string)
    requires i <= |source|
  {
    var cuts := Cuts(source, i);
    && PieceStart(cuts, |cuts|) <= i
    && current == source[PieceStart(cuts, |cuts|)..i]
    && out == TrimAll(ClosedPieces(source, cuts, |cuts|))
  }

  lemma TrimAllAppend(pieces: seq<string>, piece: string)
    ensures TrimAll(pieces + [piece]) == TrimAll(pieces) + [Trim(piece)]
  {
  }

  lemma CutStep(source: string, cuts: seq<nat>, i: nat, current: string)
    requires i < |source| && CutsWithin(source, cuts + [i]) && CutsWithin(source, cuts)
    requires PieceStart(cuts, |cuts|) <= i && current == source[PieceStart(cuts, |cuts|)..i]
    ensures PieceStart(cuts + [i], |cuts| + 1) == i + 1
    ensures TrimAll(ClosedPieces(source, cuts + [i], |cuts| + 1)) == TrimAll(ClosedPieces(source, cuts, |cuts|)) + [Trim(current)]
  {
    hide Trim;
    hide TrimAll;
    ClosedPiecesExtend(source, cuts, i, |cuts|);
    assert PieceStart(cuts + [i], |cuts|) == PieceStart(cuts, |cuts|);
    assert ClosedPieces(source, cuts + [i], |cuts| + 1) == ClosedPieces(source, cuts, |cuts|) + [current];
    TrimAllAppend(ClosedPieces(source, cuts, |cuts|), current);
  }

  lemma ProgressStarts(source: string)
    ensures Progress(source, 0, [], "")
  {
  }

  lemma ProgressStep(source: string, i: nat, out: seq<string>, current: string)
    requires i < |source| && Progress(source, i, out, current)
    ensures if IsCut(source, i) then Progress(source, i + 1, out + [Trim(current)], "")
            else Progress(source, i + 1, out, current + [source[i]])
  {
    CutsNext(source, i);
    if IsCut(source, i) {
      ProgressCloses(source, i, out, current);
    } else {
      ProgressGrows(source, i, out, current);
    }
  }

  lemma ProgressCloses(source: string, i: nat, out: seq<string>, current: string)
    requires i < |source| && Progress(source, i, out, current) && CutsWithin(source, Cuts(source, i))
    requires Cuts(source, i + 1) == Cuts(source, i) + [i] && CutsWithin(source, Cuts(source, i + 1))
    ensures Progress(source, i + 1, out + [Trim(current)], "")
  {
    hide IsCut, TrimAll, ClosedPieces, Trim, Cuts, CutsWithin;
    CutStep(source, Cuts(source, i), i, current);
    hide PieceStart;
    assert source[i + 1..i + 1] == "";
  }

  lemma ProgressGrows(source: string, i: nat, out: seq<string>, current: string)
    requires i < |source| && Progress(source, i, out, current) && Cuts(source, i + 1) == Cuts(source, i)
    ensures Progress(source, i + 1, out, current + [source[i]])
  {
    hide IsCut, TrimAll, ClosedPieces, Trim, Cuts, PieceStart;
    var start := PieceStart(Cuts(source, i), |Cuts(source, i)|);
    assert source[start..i + 1] == source[start..i] + [source[i]];
  }

  lemma CutsNext(source: string, i: nat)
    requires i < |source|
    ensures Cuts(source, i + 1) == Cuts(source, i) + if IsCut(source, i) then [i] else []
    ensures CutsWithin(source, Cuts(source, i)) && CutsWithin(source, Cuts(source, i + 1))
  {
  }

  lemma ProgressEnds(source: string, out: seq<string>, current: string)
    requires Progress(source, |source|, out, current)
    ensures Arguments(source) == if IsBlank(current) then out else out + [Trim(current)]
  {
    hide Trim;
    hide Cuts;
    var pieces := Pieces(source);
    var cuts := Cuts(source, |source|);
    assert pieces[|pieces| - 1] == current;
    assert pieces[..|pieces| - 1] == ClosedPieces(source, cuts, |cuts|);
  }

  /** The results are the trimmed stretches between the cuts; only a blank last one is missing. */
  ghost predicate StretchesBetween(source: string, cuts: seq<nat>, out: seq<string>)
    requires CutsWithin(source, cuts)
  {
    && |out| == (if IsBlank(source[PieceStart(cuts, |cuts|)..]) then |cuts| else |cuts| + 1)
    && (forall k :: 0 <= k < |cuts| ==> out[k] == Trim(source[PieceStart(cuts, k)..cuts[k]]))
    && (|out| > |cuts| ==> out[|cuts|] == Trim(source[PieceStart(cuts, |cuts|)..]))
  }

  lemma PiecesAre(source: string)
    ensures var cuts, pieces := Cuts(source, |source|), Pieces(source);
            && |pieces| == |cuts| + 1 && pieces[|cuts|] == source[PieceStart(cuts, |cuts|)..]
            && forall k :: 0 <= k < |cuts| ==> pieces[k] == source[PieceStart(cuts, k)..cuts[k]]
  {
    var cuts := Cuts(source, |source|);
    var pieces := Pieces(source);
    hide Cuts, IsCut, ClosedPieces, PieceStart;
    var closed := ClosedPieces(source, cuts, |cuts|);
    assert pieces == closed + [source[PieceStart(cuts, |cuts|)..]];
    hide Pieces;
    forall k | 0 <= k < |cuts| ensures pieces[k] == source[PieceStart(cuts, k)..cuts[k]] {
      ClosedPieceAt(source, cuts, |cuts|, k);
      assert pieces[k] == closed[k];
    }
  }

  lemma ArgumentsAre(source: string)
    ensures StretchesBetween(source, Cuts(source, |source|), Arguments(source))
  {
    PiecesAre(source);
    hide Trim, IsBlank, Cuts, IsCut, Pieces, ClosedPieces, PieceStart;
  }

  lemma {:induction false} ClosedPieceAt(source: string, cuts: seq<nat>, n: nat, k: nat)
    requires CutsWithin(source, cuts) && k < n <= |cuts|
    ensures ClosedPieces(source, cuts, n)[k] == source[PieceStart(cuts, k)..cuts[k]]
  {
    if k < n - 1 {
      ClosedPieceAt(source, cuts, n - 1, k);
    }
  }

  method SplitTopLevelArguments(source: string) returns (out: seq<string>)
    ensures out == Arguments(source)
    ensures StretchesBetween(source, Cuts(source, |source|), out)
  {
    ArgumentsAre(source);
    hide Progress, Cuts, Trim, Arguments, StretchesBetween;
    out := [];
    var current := "";
    var parenDepth, bracketDepth, braceDepth := 0, 0, 0;
    var quoteState := new QuoteScanState();
    ProgressStarts(source);
    for i := 0 to |source|
      invariant fresh(quoteState) && quoteState.Valid() && quoteState.Now() == QuoteAt(source, 0, i)
      invariant parenDepth >= 0 && bracketDepth >= 0 && braceDepth >= 0
      invariant Depths(parenDepth, bracketDepth, braceDepth) == DepthsAt(source, i)
      invariant Progress(source, i, out, current)
    {
      ProgressStep(source, i, out, current);
      var c := source[i];
      if quoteState.inQuote {
        current := current + [c];
        var _ := quoteState.ConsumeQuotedChar(c);
        continue;
      }
      var began := quoteState.BeginQuotedSection(c);
      if began {
        current := current + [c];
        continue;
      }
      if c == '(' {
        parenDepth := parenDepth + 1;
        current := current + [c];
        continue;
      }
      if c == ')' {
        if parenDepth > 0 {
          parenDepth := parenDepth - 1;
        }
        current := current + [c];
        continue;
      }
      if c == '[' {
        bracketDepth := bracketDepth + 1;
        current := current + [c];
        continue;
      }
      if c == ']' {
        if bracketDepth > 0 {
          bracketDepth := bracketDepth - 1;
        }
        current := current + [c];
        continue;
      }
      if c == '{' {
        braceDepth := braceDepth + 1;
        current := current + [c];
        continue;
      }
      if c == '}' {
        if braceDepth > 0 {
          braceDepth := braceDepth - 1;
        }
        current := current + [c];
        continue;
      }
      if c == ',' && parenDepth == 0 && bracketDepth == 0 && braceDepth == 0 {
        out := out + [Trim(current)];
        current := "";
        continue;
      }
      current := current + [c];
    }
    ProgressEnds(source, out, current);
    BlankIffTrimmedEmpty(current);
    if Trim(current) != "" {
      out := out + [Trim(current)];
    }
  }

  // ----- what the cuts mean -----

  /** What the character at `i` adds to the open brackets of one kind. */
  function Opens(source: string, opening: char, closing: char, i: nat): int
    requires i < |source|
  {
    if !Plain(source, 0, i) then 0
    else if source[i] == opening then 1
    else if source[i] == closing then -1
    else 0
  }

  /** Opening minus closing brackets of one kind outside quotes in source[from..end]. */
  function Net(source: string, opening: char, closing: char, from: nat, end: nat): int
    requires end <= |source|
    decreases end
  {
    if end <= from then 0 else Net(source, opening, closing, from, end - 1) + Opens(source, opening, closing, end - 1)
  }

  ghost predicate NetIs(source: string, opening: char, closing: char, from: nat, end: nat, n: int)
    requires end <= |source|
  {
    from <= end && Net(source, opening, closing, from, end) == n
  }

  /** The depth of one kind of brackets: the most that any stretch up to here leaves open. */
  ghost predicate MostOpen(source: string, opening: char, closing: char, i: nat, depth: nat)
    requires i <= |source|
  {
    && (exists j: nat :: NetIs(source, opening, closing, j, i, depth))
    && (forall j: nat :: j <= i ==> Net(source, opening, closing, j, i) <= depth)
  }

  lemma MostOpenStep(source: string, opening: char, closing: char, i: nat, depth: nat)
    requires i < |source| && MostOpen(source, opening, closing, i, depth)
    ensures var d := depth + Opens(source, opening, closing, i); MostOpen(source, opening, closing, i + 1, if d < 0 then 0 else d)
  {
    hide Plain;
    var j: nat :| NetIs(source, opening, closing, j, i, depth);
    var n, d := i + 1, depth + Opens(source, opening, closing, i);
    var after: nat := if d < 0 then 0 else d;
    assert NetIs(source, opening, closing, if d < 0 then n else j, n, after);
    forall l: nat | l <= n ensures Net(source, opening, closing, l, n) <= after {
      if l < n {
        assert Net(source, opening, closing, l, n) == Net(source, opening, closing, l, i) + Opens(source, opening, closing, i);
      }
    }
  }

  lemma {:induction false} DepthsAreMostOpen(source: string, i: nat)
    requires i <= |source|
    ensures var d := DepthsAt(source, i);
            MostOpen(source, '(', ')', i, d.paren) && MostOpen(source, '[', ']', i, d.bracket) && MostOpen(source, '{', '}', i, d.brace)
  {
    hide Plain, MostOpen;
    if i == 0 {
      NothingOpen(source, '(', ')');
      NothingOpen(source, '[', ']');
      NothingOpen(source, '{', '}');
    } else {
      DepthsAreMostOpen(source, i - 1);
      var d := DepthsAt(source, i - 1);
      MostOpenStep(source, '(', ')', i - 1, d.paren);
      MostOpenStep(source, '[', ']', i - 1, d.bracket);
      MostOpenStep(source, '{', '}', i - 1, d.brace);
    }
  }

  lemma NothingOpen(source: string, opening: char, closing: char)
    ensures MostOpen(source, opening, closing, 0, 0)
  {
    assert NetIs(source, opening, closing, 0, 0, 0);
  }

  lemma NoneOpen(source: string, opening: char, closing: char, i: nat, depth: nat)
    requires i <= |source| && MostOpen(source, opening, closing, i, depth)
    ensures depth == 0 <==> forall j: nat :: j <= i ==> Net(source, opening, closing, j, i) <= 0
  {
    var j: nat :| NetIs(source, opening, closing, j, i, depth);
    assert j <= i && Net(source, opening, closing, j, i) == depth;
  }

  /** The pieces are cut at exactly the commas outside quotes up to which no stretch of the text leaves a parenthesis, a
      bracket or a brace open. */
  lemma CutIff(source: string, i: nat)
    requires i < |source|
    ensures IsCut(source, i) <==>
              && Plain(source, 0, i) && source[i] == ','
              && (forall j: nat :: j <= i ==> Net(source, '(', ')', j, i) <= 0)
              && (forall j: nat :: j <= i ==> Net(source, '[', ']', j, i) <= 0)
              && (forall j: nat :: j <= i ==> Net(source, '{', '}', j, i) <= 0)
  {
    DepthsAreMostOpen(source, i);
    var d := DepthsAt(source, i);
    NoneOpen(source, '(', ')', i, d.paren);
    NoneOpen(source, '[', ']', i, d.bracket);
    NoneOpen(source, '{', '}', i, d.brace);
    hide Plain, DepthsAt, Net, MostOpen;
  }

  // ----- what quotes are -----

  /** The number of backslashes right before `k`, counted down to `from`. */
  function Backslashes(source: string, from: nat, k: nat): nat
    requires k <= |source|
    decreases k
  {
    if from < k && source[k - 1] == '\\' then 1 + Backslashes(source, from, k - 1) else 0
  }

  /** The quotes opened at `i` can end at `k`: there is the same mark, and an even number of backslashes before it. */
  predicate EndsQuotes(source: string, i: nat, k: nat)
    requires i < k < |source|
  {
    source[k] == source[i] && Backslashes(source, i + 1, k) % 2 == 0
  }

  /** From an opening mark on the text is quoted up to the first such place, and not behind it. */
  lemma {:induction false} QuotesReachTo(source: string, from: nat, i: nat, k: nat)
    requires from <= i < k <= |source| && QuoteAt(source, from, i).Unquoted? && IsQuoteMark(source[i])
    requires forall m :: i < m < k - 1 ==> !EndsQuotes(source, i, m)
    ensures QuoteAt(source, from, k) ==
              if i + 1 < k && EndsQuotes(source, i, k - 1) then Unquoted
              else Quoted(source[i], Backslashes(source, i + 1, k) % 2 == 1)
    decreases k
  {
    if k > i + 1 {
      QuotesReachTo(source, from, i, k - 1);
      assert i < k - 2 ==> !EndsQuotes(source, i, k - 2);
    }
  }

  // ----- what the pieces mean -----

  /** Nothing but the cut commas is lost: joined by commas, the pieces are the source. */
  lemma PiecesJoin(source: string)
    ensures Join(Pieces(source), ",") == source
  {
    var cuts := Cuts(source, |source|);
    PiecesJoinFrom(source, cuts, |cuts|, source[PieceStart(cuts, |cuts|)..]);
    assert Pieces(source) == ClosedPieces(source, cuts, |cuts|) + [source[PieceStart(cuts, |cuts|)..]];
    if cuts == [] {
      assert source[0..] == source;
    }
  }

  lemma {:induction false} PiecesJoinFrom(source: string, cuts: seq<nat>, k: nat, tail: string)
    requires CutsWithin(source, cuts) && k <= |cuts|
    requires forall i :: 0 <= i < |cuts| ==> source[cuts[i]] == ','
    ensures Join(ClosedPieces(source, cuts, k) + [tail], ",") == source[..PieceStart(cuts, k)] + tail
  {
    if k > 0 {
      var piece := source[PieceStart(cuts, k - 1)..cuts[k - 1]];
      PiecesJoinFrom(source, cuts, k - 1, piece + "," + tail);
      JoinLastTwo(ClosedPieces(source, cuts, k - 1), piece, tail);
      assert ClosedPieces(source, cuts, k) + [tail] == ClosedPieces(source, cuts, k - 1) + [piece, tail];
      assert source[..PieceStart(cuts, k - 1)] + piece + "," == source[..PieceStart(cuts, k)];
    }
  }

  lemma {:induction false} JoinLastTwo(parts: seq<string>, a: string, b: string)
    ensures Join(parts + [a, b], ",") == Join(parts + [a + "," + b], ",")
  {
    if parts == [] {
      assert ([a, b])[1..] == [b];
    } else {
      JoinLastTwo(parts[1..], a, b);
      assert (parts + [a, b])[1..] == parts[1..] + [a, b];
      assert (parts + [a + "," + b])[1..] == parts[1..] + [a + "," + b];
    }
  }

  // ----- the slice between matching parentheses -----

  /** Scanning the slice sees the quotes the parenthesis search saw. */
  lemma {:induction false} SliceQuotes(source: string, from: nat, to: nat, i: nat)
    requires from <= to <= |source| && i <= to - from
    ensures QuoteAt(source[from..to], 0, i) == QuoteAt(source, from, from + i)
    ensures i < to - from ==> (Plain(source[from..to], 0, i) <==> Plain(source, from, from + i))
  {
    if i > 0 {
      SliceQuotes(source, from, to, i - 1);
    }
  }

  lemma {:induction false} SliceParens(source: string, from: nat, close: nat, i: nat)
    requires ClosesAt(source, from, close) && i <= close - from
    ensures DepthsAt(source[from..close], i).paren == Balance(source, from, from + i)
  {
    if i > 0 {
      SliceQuotes(source, from, close, i - 1);
      SliceParens(source, from, close, i - 1);
      assert Balance(source, from, from + i) >= 0;
    }
  }

  /** On the slice up to the matching parenthesis the clamp at zero is never used, and the depth ends at zero. */
  lemma SliceBalanced(source: string, openIndex: nat, close: nat)
    requires ClosesAt(source, openIndex + 1, close)
    ensures var slice := source[openIndex + 1..close];
            && (forall i :: 0 <= i < |slice| && Plain(slice, 0, i) && slice[i] == ')' ==> DepthsAt(slice, i).paren > 0)
            && DepthsAt(slice, |slice|).paren == 0
            && Plain(source, openIndex + 1, close) && source[close] == ')'
  {
    var from := openIndex + 1;
    var slice := source[from..close];
    forall i | 0 <= i < |slice| && Plain(slice, 0, i) && slice[i] == ')'
      ensures DepthsAt(slice, i).paren > 0
    {
      SliceQuotes(source, from, close, i);
      SliceParens(source, from, close, i);
      assert Balance(source, from, from + i + 1) >= 0;
    }
    SliceParens(source, from, close, |slice|);
    assert Balance(source, from, close) >= 0;
  }
}
