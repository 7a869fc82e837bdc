/** Translating one batch: two attempts, halving on a timeout, and whatever the prompts do. */
module BatchTranslator {
  import opened JsText
  import opened TranslationBatches

  /** What one prompt brings: the properties of its parsed answer that are strings, or the error of the attempt. */
  datatype Outcome = Reply(strings: map<string, string>) | Failure(message: string)

  datatype Result = Done(values: map<string, string>) | Thrown(message: string)

  /** A result and the number of prompts sent when it is there. */
  datatype Step = Step(result: Result, next: nat)

  /** The outcomes of all prompts of a run, in the order they are sent. */
  type Oracle = nat -> Outcome

  const TRANSLATE_MAX_ATTEMPTS := 2

  function Lower(c: char): char {
    if 'A' <= c <= 'Z' then c - 'A' + 'a' else c
  }

  predicate StartsLowered(s: string, prefix: string) {
    |prefix| <= |s| && forall i :: 0 <= i < |prefix| ==> Lower(s[i]) == prefix[i]
  }

  function TimedOut(): string { "timed out" }

  /** message.toLowerCase().includes("timed out"): no other letter lower-cases to one of these. */
  predicate IsPromptTimeout(message: string) {
    exists i :: 0 <= i <= |message| && StartsLowered(message[i..], TimedOut())
  }

  function Keys(items: seq<Item>): set<string> {
    set item | item in items :: item.key
  }

  predicate Answered(strings: map<string, string>, key: string) {
    key in strings && !IsBlank(strings[key])
  }

  predicate AllAnswered(strings: map<string, string>, items: seq<Item>) {
    forall i :: 0 <= i < |items| ==> Answered(strings, items[i].key)
  }

  function Missing(key: string): string {
    "missing translation for " + key
  }

  /** The first key without a usable value. */
  function FirstMissing(strings: map<string, string>, items: seq<Item>): string
    requires !AllAnswered(strings, items)
  {
    if Answered(strings, items[0].key) then FirstMissing(strings, items[1..]) else items[0].key
  }

  /** The outcome of one attempt at a batch. */
  function Attempt(outcome: Outcome, items: seq<Item>): Result {
    match outcome
    case Failure(message) => Thrown(message)
    case Reply(strings) =>
      if AllAnswered(strings, items) then Done(map k | k in Keys(items) && k in strings :: strings[k])
      else Thrown(Missing(FirstMissing(strings, items)))
  }

  function Midpoint(items: seq<Item>): (m: nat)
    ensures m <= |items| && (|items| > 1 ==> 0 < m < |items|)
  {
    (|items| + 1) / 2
  }

  /** The batch from the given attempt on, when `at` prompts have been sent before. */
  function Translate(oracle: Oracle, at: nat, items: seq<Item>, attempt: nat): Step
    requires attempt < TRANSLATE_MAX_ATTEMPTS
    decreases |items|, TRANSLATE_MAX_ATTEMPTS - attempt
  {
    var tried := Attempt(oracle(at), items);
    if tried.Done? then Step(tried, at + 1)
    else if IsPromptTimeout(tried.message) && |items| > 1 then
      var left := Translate(oracle, at + 1, items[..Midpoint(items)], 0);
      if left.result.Thrown? then left else
      var right := Translate(oracle, left.next, items[Midpoint(items)..], 0);
      if right.result.Thrown? then right else Step(Done(left.result.values + right.result.values), right.next)
    else if IsPromptTimeout(tried.message) || attempt + 1 == TRANSLATE_MAX_ATTEMPTS then Step(tried, at + 1)
    else Translate(oracle, at + 1, items, attempt + 1)
  }

  /** The batches one after the other, up to the first that fails. */
  function TranslateAll(oracle: Oracle, at: nat, batches: seq<seq<Item>>): Step
    decreases |batches|
  {
    if batches == [] then Step(Done(map[]), at)
    else
      var before := TranslateAll(oracle, at, batches[..|batches| - 1]);
      if before.result.Thrown? then before else
      var last := Translate(oracle, before.next, batches[|batches| - 1], 0);
      if last.result.Thrown? then last else Step(Done(before.result.values + last.result.values), last.next)
  }

  /** A batch that fails is the last one. */
  lemma {:induction false} ThrownStays(oracle: Oracle, at: nat, batches: seq<seq<Item>>, b: nat)
    requires b <= |batches| && TranslateAll(oracle, at, batches[..b]).result.Thrown?
    ensures TranslateAll(oracle, at, batches) == TranslateAll(oracle, at, batches[..b])
    decreases |batches|
  {
    if b < |batches| {
      assert batches[..|batches| - 1][..b] == batches[..b];
      ThrownStays(oracle, at, batches[..|batches| - 1], b);
    } else {
      assert batches[..b] == batches;
    }
  }

  /** One more batch. */
  lemma TranslateNext(oracle: Oracle, at: nat, batches: seq<seq<Item>>, b: nat, values: map<string, string>, next: nat)
    requires b < |batches| && TranslateAll(oracle, at, batches[..b]) == Step(Done(values), next)
    ensures var last := Translate(oracle, next, batches[b], 0);
            TranslateAll(oracle, at, batches[..b + 1]) ==
              if last.result.Thrown? then last else Step(Done(values + last.result.values), last.next)
  {
    hide Translate;
    assert batches[..b + 1][..b] == batches[..b];
  }

  // ----- what a finished batch promises -----

  function PromptBound(n: nat): nat {
    if n == 0 then 2 else 4 * n - 2
  }

  /** Whatever the prompts do, at most 4n - 2 of them are sent (2 for an empty batch). */
  lemma {:induction false} PromptsBounded(oracle: Oracle, at: nat, items: seq<Item>, attempt: nat)
    requires attempt < TRANSLATE_MAX_ATTEMPTS
    ensures at < Translate(oracle, at, items, attempt).next <= at + PromptBound(|items|) - attempt
    decreases |items|, TRANSLATE_MAX_ATTEMPTS - attempt
  {
    hide IsPromptTimeout, Attempt;
    var tried := Attempt(oracle(at), items);
    if tried.Thrown? {
      if IsPromptTimeout(tried.message) && |items| > 1 {
        PromptsBounded(oracle, at + 1, items[..Midpoint(items)], 0);
        PromptsBounded(oracle, Translate(oracle, at + 1, items[..Midpoint(items)], 0).next, items[Midpoint(items)..], 0);
      } else if !IsPromptTimeout(tried.message) && attempt == 0 {
        PromptsBounded(oracle, at + 1, items, 1);
      }
    }
  }

  /** The value is the one a prompt in the range was answered with, for that key. */
  ghost predicate AnsweredWithin(oracle: Oracle, from: nat, to: nat, key: string, value: string) {
    exists p :: from <= p < to && oracle(p).Reply? && key in oracle(p).strings && oracle(p).strings[key] == value
  }


  /** On success there is a value for exactly the keys of the batch, none blank, each as some prompt answered it. */
  ghost predicate Translated(oracle: Oracle, from: nat, step: Step, items: seq<Item>) {
    step.result.Done? ==>
      && step.result.values.Keys == Keys(items)
      && forall k :: k in step.result.values ==>
           && !IsBlank(step.result.values[k])
           && AnsweredWithin(oracle, from, step.next, k, step.result.values[k])
  }

  lemma AttemptTranslates(oracle: Oracle, at: nat, items: seq<Item>)
    ensures Translated(oracle, at, Step(Attempt(oracle(at), items), at + 1), items)
  {
  }

  lemma {:induction false} SuccessIsComplete(oracle: Oracle, at: nat, items: seq<Item>, attempt: nat)
    requires attempt < TRANSLATE_MAX_ATTEMPTS
    ensures Translated(oracle, at, Translate(oracle, at, items, attempt), items)
    decreases |items|, TRANSLATE_MAX_ATTEMPTS - attempt
  {
    hide IsPromptTimeout, Attempt, IsBlank, AnsweredWithin;
    var tried := Attempt(oracle(at), items);
    AttemptTranslates(oracle, at, items);
    if tried.Thrown? {
      if IsPromptTimeout(tried.message) && |items| > 1 {
        var m := Midpoint(items);
        var left := Translate(oracle, at + 1, items[..m], 0);
        SuccessIsComplete(oracle, at + 1, items[..m], 0);
        PromptsBounded(oracle, at + 1, items[..m], 0);
        if left.result.Done? {
          SuccessIsComplete(oracle, left.next, items[m..], 0);
          PromptsBounded(oracle, left.next, items[m..], 0);
          HalvesTranslate(oracle, at, items, m, left, Translate(oracle, left.next, items[m..], 0));
        }
      } else if !IsPromptTimeout(tried.message) && attempt == 0 {
        SuccessIsComplete(oracle, at + 1, items, 1);
        WiderTranslates(oracle, at + 1, at, Translate(oracle, at + 1, items, 1), items);
      }
    }
  }

  lemma WiderTranslates(oracle: Oracle, from: nat, wider: nat, step: Step, items: seq<Item>)
    requires wider <= from && Translated(oracle, from, step, items)
    ensures Translated(oracle, wider, step, items)
  {
  }

  lemma HalvesTranslate(oracle: Oracle, at: nat, items: seq<Item>, m: nat, left: Step, right: Step)
    requires m <= |items| && left.result.Done? && at < left.next <= right.next
    requires Translated(oracle, at + 1, left, items[..m]) && Translated(oracle, left.next, right, items[m..])
    ensures right.result.Done? ==>
              Translated(oracle, at, Step(Done(left.result.values + right.result.values), right.next), items)
  {
  }

  /** The part of the batch last tried gave this error: a single key timed out, or the part failed twice running. */
  ghost predicate GivesUp(oracle: Oracle, from: nat, next: nat, part: seq<Item>, message: string) {
    && from < next && Attempt(oracle(next - 1), part) == Thrown(message)
    && if IsPromptTimeout(message) then |part| <= 1
       else from + 1 < next && Attempt(oracle(next - 2), part).Thrown?
            && !IsPromptTimeout(Attempt(oracle(next - 2), part).message)
  }

  ghost predicate Stretch(items: seq<Item>, lo: nat, hi: nat, part: seq<Item>) {
    lo <= hi <= |items| && part == items[lo..hi]
  }

  ghost predicate FailsOnPart(oracle: Oracle, from: nat, step: Step, items: seq<Item>) {
    step.result.Thrown? ==>
      exists lo: nat, hi: nat, part: seq<Item> ::
        Stretch(items, lo, hi, part) && GivesUp(oracle, from, step.next, part, step.result.message)
  }

  lemma SliceOfSlice(items: seq<Item>, lo: nat, hi: nat, l: nat, h: nat)
    requires lo <= hi <= |items| && l <= h <= hi - lo
    ensures items[lo..hi][l..h] == items[lo + l..lo + h]
  {
    var a, b := items[lo..hi][l..h], items[lo + l..lo + h];
    assert forall i :: 0 <= i < |a| ==> a[i] == items[lo..hi][l + i] == items[lo + l + i] == b[i];
  }

  lemma PartOfPart(oracle: Oracle, from: nat, wider: nat, step: Step, items: seq<Item>, lo: nat, hi: nat)
    requires lo <= hi <= |items| && wider <= from && FailsOnPart(oracle, from, step, items[lo..hi])
    ensures FailsOnPart(oracle, wider, step, items)
  {
    hide IsPromptTimeout, Attempt;
    if step.result.Thrown? {
      var l: nat, h: nat, part: seq<Item> :| Stretch(items[lo..hi], l, h, part) && GivesUp(oracle, from, step.next, part, step.result.message);
      SliceOfSlice(items, lo, hi, l, h);
      assert Stretch(items, lo + l, lo + h, part);
      assert GivesUp(oracle, wider, step.next, part, step.result.message);
    }
  }

  /** A batch only fails when some stretch of it gives up. */
  lemma {:induction false} FailureGivesUp(oracle: Oracle, at: nat, items: seq<Item>, attempt: nat)
    requires attempt < TRANSLATE_MAX_ATTEMPTS && attempt <= at
    requires attempt == 1 ==> Attempt(oracle(at - 1), items).Thrown? && !IsPromptTimeout(Attempt(oracle(at - 1), items).message)
    ensures FailsOnPart(oracle, at - attempt, Translate(oracle, at, items, attempt), items)
    decreases |items|, TRANSLATE_MAX_ATTEMPTS - attempt
  {
    hide IsPromptTimeout, Attempt;
    var tried := Attempt(oracle(at), items);
    assert items[0..] == items;
    if tried.Thrown? {
      if IsPromptTimeout(tried.message) && |items| > 1 {
        hide GivesUp;
        var m := Midpoint(items);
        var left := Translate(oracle, at + 1, items[..m], 0);
        FailureGivesUp(oracle, at + 1, items[..m], 0);
        PartOfPart(oracle, at + 1, at - attempt, left, items, 0, m);
        PromptsBounded(oracle, at + 1, items[..m], 0);
        assert items[m..] == items[m..|items|];
        FailureGivesUp(oracle, left.next, items[m..], 0);
        PartOfPart(oracle, left.next, at - attempt, Translate(oracle, left.next, items[m..], 0), items, m, |items|);
      } else if !IsPromptTimeout(tried.message) && attempt == 0 {
        FailureGivesUp(oracle, at + 1, items, 1);
      } else {
        assert Stretch(items, 0, |items|, items);
        assert GivesUp(oracle, at - attempt, at + 1, items, tried.message);
      }
    }
  }

  // ----- what the first prompt decides -----

  /** The text is "timed out", whatever the case of its letters. */
  predicate ReadsTimedOut(m: string) {
    var words := "timed out";
    |m| == |words| && forall i :: 0 <= i < |m| ==>
      m[i] == words[i] || ('a' <= words[i] <= 'z' && m[i] == words[i] - 'a' + 'A')
  }

  ghost predicate MentionsTimeout(message: string) {
    exists a, m, b :: message == a + m + b && ReadsTimedOut(m)
  }

  lemma LowerReads(c: char, d: char)
    requires 'a' <= d <= 'z' || d == ' '
    ensures Lower(c) == d <==> c == d || ('a' <= d <= 'z' && c == d - 'a' + 'A')
  {
  }

  lemma TimedOutLetters()
    ensures TimedOut() == "timed out"
    ensures forall i :: 0 <= i < |TimedOut()| ==> 'a' <= TimedOut()[i] <= 'z' || TimedOut()[i] == ' '
  {
  }

  lemma StartsReading(s: string)
    ensures StartsLowered(s, TimedOut()) <==> |TimedOut()| <= |s| && ReadsTimedOut(s[..|TimedOut()|])
  {
    TimedOutLetters();
    hide TimedOut;
    var words := TimedOut();
    if |words| <= |s| {
      forall i | 0 <= i < |words|
        ensures Lower(s[i]) == words[i] <==> s[i] == words[i] || ('a' <= words[i] <= 'z' && s[i] == words[i] - 'a' + 'A')
      {
        LowerReads(s[i], words[i]);
      }
      assert forall i :: 0 <= i < |words| ==> s[..|words|][i] == s[i];
    }
  }

  lemma TimeoutIff(message: string)
    ensures IsPromptTimeout(message) <==> MentionsTimeout(message)
  {
    TimedOutLetters();
    hide ReadsTimedOut, StartsLowered, TimedOut;
    var n := |TimedOut()|;
    if IsPromptTimeout(message) {
      var i :| 0 <= i <= |message| && StartsLowered(message[i..], TimedOut());
      StartsReading(message[i..]);
      assert message == message[..i] + message[i..][..n] + message[i..][n..];
    }
    if MentionsTimeout(message) {
      var a, m, b :| message == a + m + b && ReadsTimedOut(m);
      ReadsLength(m);
      assert message[|a|..] == m + b;
      StartsReading(m + b);
      assert (m + b)[..n] == m;
    }
  }

  lemma ReadsLength(m: string)
    requires ReadsTimedOut(m)
    ensures |m| == |TimedOut()|
  {
  }

  /** The outcome of a batch from the outcomes of its halves, the first of `m` items. */
  function BothHalves(oracle: Oracle, at: nat, items: seq<Item>, m: nat): Step
    requires m <= |items|
  {
    var left := Translate(oracle, at, items[..m], 0);
    if left.result.Thrown? then left else
    var right := Translate(oracle, left.next, items[m..], 0);
    if right.result.Thrown? then right else Step(Done(left.result.values + right.result.values), right.next)
  }

  /** A prompt that fails, or whose reply is refused, with a message saying anywhere, in any case, that it timed out makes a
      batch of several keys go on with its two halves, the first one no smaller, and ends a batch of one key. After any
      other failure the batch is tried once more, and a second one ends it. */
  lemma FailureDecides(oracle: Oracle, at: nat, items: seq<Item>, message: string)
    requires oracle(at) == Failure(message) || Attempt(oracle(at), items) == Thrown(message)
    ensures (exists a, m, b :: message == a + m + b && ReadsTimedOut(m)) ==>
              Translate(oracle, at, items, 0) == Translate(oracle, at, items, 1) ==
                if |items| > 1 then BothHalves(oracle, at + 1, items, (|items| + 1) / 2) else Step(Thrown(message), at + 1)
    ensures (forall a, m, b :: message == a + m + b ==> !ReadsTimedOut(m)) ==>
              && Translate(oracle, at, items, 0) == Translate(oracle, at + 1, items, 1)
              && Translate(oracle, at, items, 1) == Step(Thrown(message), at + 1)
  {
    TimeoutIff(message);
    hide IsPromptTimeout, ReadsTimedOut;
  }

  /** A reply ends the batch at once when it has a value for every key that is not blank, with exactly these values; and
      otherwise it is refused with an error that names the first key without one. */
  lemma ReplyDecides(oracle: Oracle, at: nat, items: seq<Item>, attempt: nat, strings: map<string, string>)
    requires oracle(at) == Reply(strings) && attempt < TRANSLATE_MAX_ATTEMPTS
    ensures var step := Translate(oracle, at, items, attempt);
            (forall i :: 0 <= i < |items| ==> items[i].key in strings && !IsBlank(strings[items[i].key])) ==>
              && step.next == at + 1 && step.result.Done? && step.result.values.Keys == Keys(items)
              && forall k :: k in step.result.values ==> k in strings && step.result.values[k] == strings[k]
    ensures forall i :: 0 <= i < |items| && !Answered(strings, items[i].key)
                        && (forall j :: 0 <= j < i ==> Answered(strings, items[j].key)) ==>
              Attempt(oracle(at), items) == Thrown("missing translation for " + items[i].key)
  {
    hide IsBlank, IsPromptTimeout;
    forall i | 0 <= i < |items| && !Answered(strings, items[i].key)
               && (forall j :: 0 <= j < i ==> Answered(strings, items[j].key))
      ensures Attempt(oracle(at), items) == Thrown("missing translation for " + items[i].key)
    {
      FirstMissingAt(strings, items, i);
    }
  }

  // ----- the bound is reached -----

  function FullReply(items: seq<Item>): Outcome {
    Reply(map k | k in Keys(items) :: "x")
  }

  /** The worst run: every batch fails once, then times out and is halved, or for one key succeeds. */
  function WorstOutcomes(items: seq<Item>): (r: seq<Outcome>)
    requires items != []
    ensures |r| == 4 * |items| - 2
    decreases |items|
  {
    if |items| == 1 then [Failure(""), FullReply(items)]
    else
      [Failure(""), Failure(TimedOut())] + WorstOutcomes(items[..Midpoint(items)]) + WorstOutcomes(items[Midpoint(items)..])
  }

  ghost predicate Plays(oracle: Oracle, at: nat, outcomes: seq<Outcome>) {
    forall i :: 0 <= i < |outcomes| ==> oracle(at + i) == outcomes[i]
  }

  lemma TimedOutTimesOut()
    ensures IsPromptTimeout(TimedOut()) && !IsPromptTimeout("")
  {
    var t := TimedOut();
    assert forall i :: 0 <= i < |t| ==> Lower(t[i]) == t[i];
    hide TimedOut;
    assert t[0..] == t;
    assert StartsLowered(t[0..], t);
    assert |t| > 0 by { TimedOutIsText(); }
  }

  lemma TimedOutIsText()
    ensures |TimedOut()| == 9
  {
  }

  lemma FullReplyWorks(items: seq<Item>)
    ensures Attempt(FullReply(items), items).Done?
  {
    assert "x"[0] == 'x';
  }

  lemma PlaysSplit(oracle: Oracle, at: nat, a: seq<Outcome>, b: seq<Outcome>, c: seq<Outcome>)
    requires Plays(oracle, at, a + b + c)
    ensures Plays(oracle, at, a) && Plays(oracle, at + |a|, b) && Plays(oracle, at + |a| + |b|, c)
  {
    var all := a + b + c;
    forall i | 0 <= i < |a| ensures oracle(at + i) == a[i] { assert all[i] == a[i]; }
    forall i | 0 <= i < |b| ensures oracle(at + |a| + i) == b[i] { assert all[|a| + i] == b[i]; }
    forall i | 0 <= i < |c| ensures oracle(at + |a| + |b| + i) == c[i] { assert all[|a| + |b| + i] == c[i]; }
  }

  lemma {:induction false} WorstRun(oracle: Oracle, at: nat, items: seq<Item>)
    requires items != [] && Plays(oracle, at, WorstOutcomes(items))
    ensures Translate(oracle, at, items, 0).result.Done?
    ensures Translate(oracle, at, items, 0).next == at + 4 * |items| - 2
    decreases |items|
  {
    TimedOutTimesOut();
    hide IsPromptTimeout, IsBlank, TimedOut;
    assert oracle(at) == WorstOutcomes(items)[0] == Failure("");
    assert oracle(at + 1) == WorstOutcomes(items)[1];
    if |items| == 1 {
      FullReplyWorks(items);
    } else {
      hide AllAnswered;
      var m := Midpoint(items);
      PlaysSplit(oracle, at, [Failure(""), Failure(TimedOut())], WorstOutcomes(items[..m]), WorstOutcomes(items[m..]));
      WorstRun(oracle, at + 2, items[..m]);
      WorstRun(oracle, at + 2 + 4 * m - 2, items[m..]);
    }
  }

  ghost predicate ReachesBound(oracle: Oracle, items: seq<Item>) {
    Translate(oracle, 0, items, 0).result.Done? && Translate(oracle, 0, items, 0).next == PromptBound(|items|)
  }

  /** For every batch there is a run that succeeds only after all 4n - 2 prompts. */
  lemma PromptBoundReached(items: seq<Item>)
    requires items != []
    ensures exists oracle: Oracle :: ReachesBound(oracle, items)
  {
    hide Translate, WorstOutcomes;
    var worst := WorstOutcomes(items);
    var oracle: Oracle := (i: nat) => if i < |worst| then worst[i] else Failure("");
    WorstRun(oracle, 0, items);
    assert ReachesBound(oracle, items);
  }

  // ----- the code -----

  lemma {:induction false} FirstMissingAt(strings: map<string, string>, items: seq<Item>, i: nat)
    requires i < |items| && AllAnswered(strings, items[..i]) && !Answered(strings, items[i].key)
    ensures !AllAnswered(strings, items) && FirstMissing(strings, items) == items[i].key
  {
    hide Answered;
    if i > 0 {
      assert Answered(strings, items[..i][0].key);
      assert items[1..][..i - 1] == items[..i][1..];
      FirstMissingAt(strings, items[1..], i - 1);
    }
  }

  method ReadReply(strings: map<string, string>, items: seq<Item>) returns (r: Result)
    ensures r == Attempt(Reply(strings), items)
  {
    hide Missing, IsBlank;
    var translated: map<string, string> := map[];
    for i := 0 to |items|
      invariant AllAnswered(strings, items[..i])
      invariant translated == map k | k in Keys(items[..i]) && k in strings :: strings[k]
    {
      var key := items[i].key;
      if key !in strings || IsBlank(strings[key]) {
        FirstMissingAt(strings, items, i);
        return Thrown(Missing(key));
      }
      assert items[..i + 1] == items[..i] + [items[i]];
      assert Keys(items[..i + 1]) == Keys(items[..i]) + {key};
      translated := translated[key := strings[key]];
    }
    assert items[..|items|] == items;
    return Done(translated);
  }

  /** The prompts of a locale: creating the client, sending, and parsing. Nobody controls what they bring. */
  class Prompter {
    const oracle: Oracle
    var prompts: nat

    constructor (oracle: Oracle)
      ensures this.oracle == oracle && prompts == 0
    {
      this.oracle := oracle;
      prompts := 0;
    }

    method Prompt() returns (outcome: Outcome)
      modifies this
      ensures outcome == oracle(old(prompts)) && prompts == old(prompts) + 1
    {
      outcome := oracle(prompts);
      prompts := prompts + 1;
    }

    method TranslateBatch(items: seq<Item>) returns (result: Result)
      modifies this
      ensures Step(result, prompts) == Translate(oracle, old(prompts), items, 0)
      ensures prompts <= old(prompts) + PromptBound(|items|)
      ensures Translated(oracle, old(prompts), Step(result, prompts), items)
      ensures FailsOnPart(oracle, old(prompts), Step(result, prompts), items)
      decreases |items|
    {
      hide IsPromptTimeout, Attempt, Translated, FailsOnPart;
      ghost var before := prompts;
      PromptsBounded(oracle, before, items, 0);
      SuccessIsComplete(oracle, before, items, 0);
      FailureGivesUp(oracle, before, items, 0);
      var lastError := "";
      var attempt := 0;
      while attempt < TRANSLATE_MAX_ATTEMPTS
        invariant attempt <= TRANSLATE_MAX_ATTEMPTS
        invariant attempt < TRANSLATE_MAX_ATTEMPTS ==>
                    Translate(oracle, before, items, 0) == Translate(oracle, prompts, items, attempt)
        invariant attempt == TRANSLATE_MAX_ATTEMPTS ==>
                    Translate(oracle, before, items, 0) == Step(Thrown(lastError), prompts)
      {
        var outcome := Prompt();
        var tried := Thrown("");
        match outcome {
          case Reply(strings) => tried := ReadReply(strings, items);
          case Failure(message) => tried := Thrown(message); FailureIsThrown(message, items);
        }
        if tried.Done? {
          return tried;
        }
        lastError := tried.message;
        if IsPromptTimeout(lastError) && |items| > 1 {
          var left := TranslateBatch(items[..Midpoint(items)]);
          if left.Thrown? {
            return left;
          }
          var right := TranslateBatch(items[Midpoint(items)..]);
          if right.Thrown? {
            return right;
          }
          return Done(left.values + right.values);
        }
        if IsPromptTimeout(lastError) {
          return Thrown(lastError);
        }
        attempt := attempt + 1;
      }
      return Thrown(lastError);
    }
  }

  lemma FailureIsThrown(message: string, items: seq<Item>)
    ensures Attempt(Failure(message), items) == Thrown(message)
  {
  }
}
