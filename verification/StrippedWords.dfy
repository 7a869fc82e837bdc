/** What stripping keeps: the words of every line outside the injected blocks, in order, and nothing else. */
module StrippedWords {
  import opened JsText
  import opened Options
  import opened Sequences
  import opened TextWords
  import opened PromptPrefix

  // ----- collapsing white space -----

  /** The white space that collapsing leaves in front of the first word and behind the last one. */
  function Lead(s: string, inRun: bool): string {
    if s != "" && IsSpace(s[0]) && !inRun then " " else ""
  }

  function Tail(s: string): string {
    if Words(s) != [] && IsSpace(s[|s| - 1]) then " " else ""
  }

  lemma JoinInFront(c: char, words: seq<string>)
    ensures words != [] ==> Join(InFront(c, words), " ") == [c] + Join(words, " ")
    ensures Join([[c]] + words, " ") == if words == [] then [c] else [c] + " " + Join(words, " ")
  {
    assert ([[c]] + words)[1..] == words;
    assert words != [] ==> InFront(c, words)[1..] == words[1..];
  }

  lemma SpaceFirst(s: string, inRun: bool)
    requires s != "" && IsSpace(s[0])
    ensures Words(s) == Words(s[1..]) && Tail(s) == Tail(s[1..]) && Lead(s[1..], true) == ""
    ensures Collapse(s, inRun) == Lead(s, inRun) + Collapse(s[1..], true)
  {
    NoWords(s);
    assert s[1..] != "" ==> s[1..][|s| - 2] == s[|s| - 1];
  }

  lemma LetterFirst(s: string, inRun: bool)
    requires s != "" && !IsSpace(s[0])
    ensures Lead(s, inRun) == "" && Collapse(s, inRun) == [s[0]] + Collapse(s[1..], false)
    ensures var rest := s[1..];
            if rest != "" && !IsSpace(rest[0]) then
              Words(s) == InFront(s[0], Words(rest)) && Words(rest) != [] && Lead(rest, false) == "" && Tail(s) == Tail(rest)
            else
              && Words(s) == [[s[0]]] + Words(rest)
              && if Words(rest) == [] then Lead(rest, false) == Tail(s) && Tail(rest) == ""
                 else Lead(rest, false) == " " && Tail(s) == Tail(rest)
  {
    var rest := s[1..];
    NoWords(rest);
    hide IsSpace, InFront;
    assert rest != "" ==> rest[|rest| - 1] == s[|s| - 1] && rest[0] == s[1];
  }

  lemma {:induction false} CollapseIsWords(s: string, inRun: bool)
    ensures Collapse(s, inRun) == Lead(s, inRun) + Join(Words(s), " ") + Tail(s)
  {
    hide *;
    JoinNothing();
    NothingLeft();
    if s != "" {
      var rest := s[1..];
      CollapseIsWords(rest, IsSpace(s[0]));
      if IsSpace(s[0]) {
        SpaceFirst(s, inRun);
      } else {
        LetterFirst(s, inRun);
        JoinInFront(s[0], Words(rest));
      }
    }
  }

  lemma NothingLeft()
    ensures forall inRun :: Lead("", inRun) == "" && Collapse("", inRun) == ""
    ensures Words("") == [] && Tail("") == ""
  {
  }

  lemma JoinNothing()
    ensures Join([], " ") == ""
  {
  }

  /** Collapsing and trimming a text leaves its words, joined by single spaces. */
  lemma CollapsedWords(s: string)
    ensures Trim(Collapse(s, false)) == Join(Words(s), " ")
  {
    CollapseIsWords(s, false);
    forall k | 0 <= k < |Words(s)|
      ensures Words(s)[k] != "" && !IsSpace(Words(s)[k][0]) && !IsSpace(Words(s)[k][|Words(s)[k]| - 1])
    {
      WordsAreRuns(s, k);
    }
    JoinedEnds(Words(s));
    TrimmedSides(Lead(s, false), Join(Words(s), " "), Tail(s));
  }

  // ----- the injected blocks -----

  datatype Block = Block(first: nat, last: nat)

  /** The lines of an injected block: header, opening tag, and everything up to the first closing tag. */
  ghost predicate IsBlock(lines: seq<string>, b: Block) {
    && b.first + 1 < b.last < |lines|
    && Trim(lines[b.first]) == Header() && Trim(lines[b.first + 1]) == OpenTag() && Trim(lines[b.last]) == CloseTag()
    && forall k :: b.first + 1 < k < b.last ==> Trim(lines[k]) != CloseTag()
  }

  ghost predicate Outside(blocks: set<Block>, k: nat) {
    forall b :: b in blocks ==> !(b.first <= k <= b.last)
  }

  ghost predicate Apart(blocks: set<Block>) {
    forall a, b :: a in blocks && b in blocks && a != b ==> a.last < b.first || b.last < a.first
  }

  /** The injected blocks of a text: they do not overlap, and no block starts outside of them. */
  ghost predicate InjectedBlocks(lines: seq<string>, blocks: set<Block>) {
    && (forall b :: b in blocks ==> IsBlock(lines, b))
    && Apart(blocks)
    && (forall b: Block :: Outside(blocks, b.first) ==> !IsBlock(lines, b))
  }

  /** The words of the lines from `k` on that lie outside the blocks. */
  ghost function OutsideWords(lines: seq<string>, blocks: set<Block>, k: nat): seq<string>
    decreases |lines| - k
  {
    if k >= |lines| then []
    else (if Outside(blocks, k) then Words(lines[k]) else []) + OutsideWords(lines, blocks, k + 1)
  }

  lemma BlockCloseIs(lines: seq<string>, i: nat)
    requires i < |lines|
    ensures BlockClose(lines, i).Some? ==> IsBlock(lines, Block(i, BlockClose(lines, i).value))
    ensures forall b :: IsBlock(lines, b) && b.first == i ==> BlockClose(lines, i) == Some(b.last)
  {
    hide Trim, Header, OpenTag, CloseTag;
    FindCloseIs(lines, i + 2);
    forall b | IsBlock(lines, b) && b.first == i ensures BlockClose(lines, i) == Some(b.last) {
      FindCloseAt(lines, i + 2, b.last, CloseTag());
    }
  }

  lemma {:induction false} FindCloseIs(lines: seq<string>, i: nat)
    ensures var c := FindClose(lines, i, CloseTag());
            c < |lines| ==> Trim(lines[c]) == CloseTag() && forall k :: i <= k < c ==> Trim(lines[k]) != CloseTag()
    decreases |lines| - i
  {
    hide Trim, CloseTag;
    if i < |lines| {
      FindCloseIs(lines, i + 1);
    }
  }

  lemma {:induction false} BlockSilent(lines: seq<string>, blocks: set<Block>, b: Block, k: nat)
    requires b in blocks && b.last < |lines| && b.first <= k <= b.last + 1
    ensures OutsideWords(lines, blocks, k) == OutsideWords(lines, blocks, b.last + 1)
    decreases b.last + 1 - k
  {
    if k <= b.last {
      assert !Outside(blocks, k);
      BlockSilent(lines, blocks, b, k + 1);
    }
  }

  lemma BlockEnds(lines: seq<string>, b: Block)
    requires IsBlock(lines, b)
    ensures b.first < b.last < |lines|
  {
  }

  /** No block reaches over the boundary in front of line `i`. */
  ghost predicate Boundary(blocks: set<Block>, i: nat) {
    forall b :: b in blocks ==> !(b.first < i <= b.last)
  }

  /** A line at a boundary that starts no block lies outside, and the next line is at a boundary too. */
  lemma NoBlockHere(lines: seq<string>, blocks: set<Block>, i: nat)
    requires InjectedBlocks(lines, blocks) && Boundary(blocks, i) && i < |lines| && BlockClose(lines, i).None?
    ensures Outside(blocks, i) && Boundary(blocks, i + 1)
  {
    BlockCloseIs(lines, i);
    hide IsBlock, BlockClose;
  }

  /** A block at a boundary is one of the given ones, and a boundary follows it. */
  lemma BlockHere(lines: seq<string>, blocks: set<Block>, i: nat)
    requires InjectedBlocks(lines, blocks) && Boundary(blocks, i) && i < |lines| && BlockClose(lines, i).Some?
    ensures var b := Block(i, BlockClose(lines, i).value); b in blocks && i < b.last < |lines| && Boundary(blocks, b.last + 1)
  {
    BlockCloseIs(lines, i);
    var found := Block(i, BlockClose(lines, i).value);
    BlockEnds(lines, found);
    hide IsBlock, BlockClose;
    assert !Outside(blocks, found.first);
  }

  lemma HeaderNotEmpty()
    ensures Header() != ""
  {
    TagLines();
  }

  lemma BlankStartsNone(lines: seq<string>, i: nat)
    requires i < |lines| && Trim(lines[i]) == ""
    ensures BlockClose(lines, i).None?
  {
    HeaderNotEmpty();
    hide Header, Trim;
  }

  lemma CleanedOne(lines: seq<string>, i: nat)
    requires i < |lines| && Trim(lines[i]) != "" && BlockClose(lines, i).None?
    ensures AllWords(CleanedFrom(lines, i)) == Words(lines[i]) + AllWords(CleanedFrom(lines, i + 1))
  {
    WordsOfTrim(lines[i]);
    hide Trim, BlockClose, Words;
    assert ([Trim(lines[i])] + CleanedFrom(lines, i + 1))[1..] == CleanedFrom(lines, i + 1);
  }

  lemma CleanedBlank(lines: seq<string>, i: nat)
    requires i < |lines| && Trim(lines[i]) == ""
    ensures CleanedFrom(lines, i) == CleanedFrom(lines, i + 1) && Words(lines[i]) == []
  {
    WordsOfTrim(lines[i]);
    hide Trim, BlockClose;
    assert Words("") == [];
  }

  /** The words of the cleaned lines from `i` on, and of the lines outside, go on alike from `i` and from `next`. */
  ghost predicate GoesOn(lines: seq<string>, blocks: set<Block>, i: nat, next: nat, words: seq<string>) {
    && AllWords(CleanedFrom(lines, i)) == words + AllWords(CleanedFrom(lines, next))
    && OutsideWords(lines, blocks, i) == words + OutsideWords(lines, blocks, next)
  }

  lemma OneStep(lines: seq<string>, blocks: set<Block>, i: nat) returns (next: nat, words: seq<string>)
    requires InjectedBlocks(lines, blocks) && Boundary(blocks, i) && i < |lines|
    ensures i < next && Boundary(blocks, next) && GoesOn(lines, blocks, i, next, words)
  {
    hide InjectedBlocks, Boundary, Trim, BlockClose, CleanedFrom, AllWords, Words;
    if Trim(lines[i]) == "" {
      BlankStartsNone(lines, i);
      NoBlockHere(lines, blocks, i);
      CleanedBlank(lines, i);
      next, words := i + 1, [];
    } else if BlockClose(lines, i).Some? {
      BlockHere(lines, blocks, i);
      next, words := BlockClose(lines, i).value + 1, [];
      CleanedSkips(lines, i, next - 1);
      BlockSilent(lines, blocks, Block(i, next - 1), i);
    } else {
      NoBlockHere(lines, blocks, i);
      CleanedOne(lines, i);
      next, words := i + 1, Words(lines[i]);
    }
  }

  lemma {:induction false} CleanedWords(lines: seq<string>, blocks: set<Block>, i: nat)
    requires InjectedBlocks(lines, blocks) && Boundary(blocks, i)
    ensures AllWords(CleanedFrom(lines, i)) == OutsideWords(lines, blocks, i)
    decreases |lines| - i
  {
    hide InjectedBlocks, Boundary, Trim, BlockClose, Words;
    if i < |lines| {
      hide CleanedFrom, AllWords, OutsideWords;
      var next, words := OneStep(lines, blocks, i);
      CleanedWords(lines, blocks, next);
    }
  }

  /** Stripping any text leaves the words of its lines outside the injected blocks, in order, joined by single spaces. A
      header that no opening tag follows directly, or no closing tag later, starts no block and stays. */
  lemma StripKeepsTheRest(text: string, blocks: set<Block>)
    requires InjectedBlocks(Split(text, '\n'), blocks)
    ensures Stripped(text) == Join(OutsideWords(Split(text, '\n'), blocks, 0), " ")
  {
    var lines := Split(text, '\n');
    CleanedWords(lines, blocks, 0);
    WordsOfJoin(CleanedFrom(lines, 0), ' ');
    CollapsedWords(Join(CleanedFrom(lines, 0), " "));
  }

  /** Text in which no trimmed line is the header keeps all its words. */
  lemma OrdinaryTextStays(text: string)
    requires forall k :: 0 <= k < |Split(text, '\n')| ==> Trim(Split(text, '\n')[k]) != Header()
    ensures Stripped(text) == Join(Words(text), " ")
  {
    hide Header, Trim, Split, Words, OpenTag, CloseTag;
    StripKeepsTheRest(text, {});
    AllOutside(Split(text, '\n'), 0);
    WordsOfLines(text);
  }

  lemma {:induction false} AllOutside(lines: seq<string>, k: nat)
    requires k <= |lines|
    ensures OutsideWords(lines, {}, k) == AllWords(lines[k..])
    decreases |lines| - k
  {
    if k < |lines| {
      AllOutside(lines, k + 1);
      assert lines[k..][1..] == lines[k + 1..];
    }
  }

  /** Every text has its injected blocks. */
  lemma BlocksExist(lines: seq<string>) returns (blocks: set<Block>)
    ensures InjectedBlocks(lines, blocks)
  {
    blocks := BlocksFrom(lines, 0);
    hide IsBlock;
  }

  ghost predicate BlocksAfter(lines: seq<string>, blocks: set<Block>, i: nat) {
    && (forall b :: b in blocks ==> IsBlock(lines, b) && i <= b.first)
    && Apart(blocks)
    && (forall b: Block :: i <= b.first && Outside(blocks, b.first) ==> !IsBlock(lines, b))
  }

  lemma {:induction false} BlocksFrom(lines: seq<string>, i: nat) returns (blocks: set<Block>)
    ensures BlocksAfter(lines, blocks, i)
    decreases |lines| - i
  {
    hide IsBlock, BlockClose;
    if i >= |lines| {
      blocks := {};
      forall b: Block | i <= b.first ensures !IsBlock(lines, b) {
        StartsBefore(lines, b);
      }
    } else {
      BlockCloseIs(lines, i);
      if BlockClose(lines, i).Some? {
        var found := Block(i, BlockClose(lines, i).value);
        BlockEnds(lines, found);
        hide BlocksAfter;
        var rest := BlocksFrom(lines, found.last + 1);
        blocks := {found} + rest;
        OneMoreBlock(lines, found, rest);
      } else {
        blocks := BlocksFrom(lines, i + 1);
      }
    }
  }

  lemma ApartFromLater(found: Block, rest: set<Block>)
    requires Apart(rest) && forall b :: b in rest ==> found.last < b.first
    ensures Apart({found} + rest)
  {
  }

  lemma OneMoreBlock(lines: seq<string>, found: Block, rest: set<Block>)
    requires IsBlock(lines, found) && found.first <= found.last && BlocksAfter(lines, rest, found.last + 1)
    ensures BlocksAfter(lines, {found} + rest, found.first)
  {
    hide IsBlock, Apart, Outside;
    ApartFromLater(found, rest);
    var all := {found} + rest;
    forall b: Block | found.first <= b.first && Outside(all, b.first) ensures !IsBlock(lines, b) {
      OutsideMore(found, rest, b.first);
    }
  }

  lemma OutsideMore(found: Block, rest: set<Block>, k: nat)
    requires Outside({found} + rest, k) && found.first <= k
    ensures found.last < k && Outside(rest, k)
  {
    assert found in {found} + rest;
  }

  lemma StartsBefore(lines: seq<string>, b: Block)
    ensures b.first >= |lines| ==> !IsBlock(lines, b)
  {
  }
}
