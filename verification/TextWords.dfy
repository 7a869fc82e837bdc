/** The words of a text: what trimming, joining and splitting into lines leave of them. */
module TextWords {
  import opened JsText
  import opened Sequences

  /** The maximal runs without white space, in order. */
  function Words(s: string): seq<string> {
    if s == "" then []
    else if IsSpace(s[0]) then Words(s[1..])
    else if |s| == 1 || IsSpace(s[1]) then [[s[0]]] + Words(s[1..])
    else InFront(s[0], Words(s[1..]))
  }

  /** The character goes to the front of the first word. */
  function InFront(c: char, words: seq<string>): seq<string> {
    if words == [] then [[c]] else [[c] + words[0]] + words[1..]
  }

  /** The words of all texts, one after the other. */
  function AllWords(texts: seq<string>): seq<string> {
    if texts == [] then [] else Words(texts[0]) + AllWords(texts[1..])
  }

  predicate AllSpace(s: string) {
    forall i :: 0 <= i < |s| ==> IsSpace(s[i])
  }

  lemma {:induction false} NoWords(s: string)
    ensures Words(s) == [] <==> AllSpace(s)
  {
    if s != "" {
      NoWords(s[1..]);
      assert forall i :: 0 < i < |s| ==> s[i] == s[1..][i - 1];
    }
  }

  /** A word is not empty and holds no white space. */
  lemma {:induction false} WordsAreRuns(s: string, k: nat)
    requires k < |Words(s)|
    ensures Words(s)[k] != "" && forall i :: 0 <= i < |Words(s)[k]| ==> !IsSpace(Words(s)[k][i])
  {
    var rest := Words(s[1..]);
    if IsSpace(s[0]) {
      WordsAreRuns(s[1..], k);
    } else if |s| == 1 || IsSpace(s[1]) {
      if k > 0 {
        WordsAreRuns(s[1..], k - 1);
      }
    } else if rest != [] {
      WordsAreRuns(s[1..], k);
    }
  }

  lemma InFrontAppend(c: char, a: seq<string>, b: seq<string>)
    ensures a != [] ==> InFront(c, a + b) == InFront(c, a) + b
    ensures ([[c]] + a) + b == [[c]] + (a + b)
  {
  }

  lemma WordsCons(c: char, rest: string)
    ensures Words([c] + rest) ==
              if IsSpace(c) then Words(rest)
              else if rest == "" || IsSpace(rest[0]) then [[c]] + Words(rest) else InFront(c, Words(rest))
  {
    hide IsSpace, InFront;
    assert ([c] + rest)[1..] == rest;
  }

  /** White space between two texts parts their words. */
  lemma {:induction false} WordsAround(a: string, c: char, b: string)
    requires IsSpace(c)
    ensures Words(a + [c] + b) == Words(a) + Words(b)
  {
    hide InFront, IsSpace, Words;
    if a == "" {
      WordsCons(c, b);
      NoWords("");
      assert a + [c] + b == [c] + b;
    } else {
      var rest, next := a[1..], a[1..] + [c] + b;
      assert a == [a[0]] + rest && a + [c] + b == [a[0]] + next;
      assert next[0] == if rest == "" then c else rest[0];
      WordsCons(a[0], rest);
      WordsCons(a[0], next);
      WordsAround(rest, c, b);
      NoWords(rest);
      InFrontAppend(a[0], Words(rest), Words(b));
    }
  }

  lemma {:induction false} WordsAfterSpace(space: string, s: string)
    requires AllSpace(space)
    ensures Words(space + s) == Words(s)
  {
    if space == "" {
      assert space + s == s;
    } else {
      WordsAfterSpace(space[1..], s);
      assert (space + s)[1..] == space[1..] + s;
    }
  }

  lemma WordsBeforeSpace(s: string, space: string)
    requires AllSpace(space)
    ensures Words(s + space) == Words(s)
  {
    hide Words;
    if space == "" {
      assert s + space == s;
    } else {
      WordsAround(s, space[0], space[1..]);
      assert s + [space[0]] + space[1..] == s + space;
      NoWords(space[1..]);
    }
  }

  lemma {:induction false} TrailingRest(s: string, i: nat)
    requires i <= |s|
    ensures forall k :: Trailing(s, i) <= k < i ==> IsSpace(s[k])
  {
    if i > 0 && IsSpace(s[i - 1]) {
      TrailingRest(s, i - 1);
    }
  }

  /** Trimming keeps the words. */
  lemma WordsOfTrim(s: string)
    ensures Words(Trim(s)) == Words(s)
  {
    hide Words;
    var before, rest := s[..Leading(s, 0)], s[Leading(s, 0)..];
    var n := Trailing(rest, |rest|);
    TrailingRest(rest, |rest|);
    assert s == before + rest && rest == rest[..n] + rest[n..];
    WordsAfterSpace(before, rest);
    WordsBeforeSpace(rest[..n], rest[n..]);
  }

  /** White space on both sides of a text that neither starts nor ends with any goes. */
  lemma TrimmedSides(before: string, s: string, after: string)
    requires AllSpace(before) && AllSpace(after)
    requires s != "" ==> !IsSpace(s[0]) && !IsSpace(s[|s| - 1])
    ensures Trim(before + s + after) == s
  {
    var all := before + s + after;
    if s == "" {
      assert IsBlank(all);
      BlankIffTrimmedEmpty(all);
    } else {
      assert all[|before|] == s[0];
      assert Leading(all, 0) == |before|;
      var rest := all[|before|..];
      assert rest == s + after;
      TrailingRest(rest, |rest|);
      assert rest[|s| - 1] == s[|s| - 1];
      assert Trailing(rest, |rest|) == |s|;
    }
  }

  /** Joining with white space joins the words. */
  lemma {:induction false} WordsOfJoin(parts: seq<string>, c: char)
    requires IsSpace(c)
    ensures Words(Join(parts, [c])) == AllWords(parts)
  {
    if |parts| == 1 {
      assert AllWords(parts[1..]) == [];
    } else if |parts| > 1 {
      WordsOfJoin(parts[1..], c);
      WordsAround(parts[0], c, Join(parts[1..], [c]));
    }
  }

  lemma {:induction false} JoinSplit(s: string, c: char)
    ensures Join(Split(s, c), [c]) == s
  {
    if s != "" {
      var rest := Split(s[1..], c);
      JoinSplit(s[1..], c);
      if s[0] == c {
        assert ([""] + rest)[1..] == rest;
      } else {
        assert ([[s[0]] + rest[0]] + rest[1..])[1..] == rest[1..];
      }
    }
  }

  /** The words of a text are those of its lines. */
  lemma WordsOfLines(s: string)
    ensures AllWords(Split(s, '\n')) == Words(s)
  {
    JoinSplit(s, '\n');
    WordsOfJoin(Split(s, '\n'), '\n');
  }

  /** Words joined by single spaces neither start nor end with white space. */
  lemma {:induction false} JoinedEnds(words: seq<string>)
    requires forall k :: 0 <= k < |words| ==> words[k] != "" && !IsSpace(words[k][0]) && !IsSpace(words[k][|words[k]| - 1])
    ensures var s := Join(words, " "); (s == "" <==> words == []) && (s != "" ==> !IsSpace(s[0]) && !IsSpace(s[|s| - 1]))
  {
    if |words| > 1 {
      JoinedEnds(words[1..]);
      var rest := Join(words[1..], " ");
      var s := Join(words, " ");
      assert s[0] == words[0][0] && s[|s| - 1] == rest[|rest| - 1];
    }
  }
}
