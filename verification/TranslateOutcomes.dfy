/** What the outcomes of the prompts lead to: what is a timeout, when a batch is split and when it is retried. */
module TranslateOutcomes {
  import opened Wrappers
  import opened TranslationBatches
  import opened TranslateBatch
  import Text

  // ---------- the words of a timeout ----------

  /** `c` is `d` up to the case of ASCII letters. */
  predicate SameLetter(c: char, d: char) {
    c == d || ('a' <= d <= 'z' && c as int == d as int - 32)
  }

  predicate StandsAt(s: string, part: string, i: nat) {
    i + |part| <= |s| && s[i..i + |part|] == part
  }

  /** The words "timed out", in any case, stand at `i`. */
  predicate SaysTimedOut(message: string, i: nat) {
    i + 9 <= |message| && forall j: nat | j < 9 :: SameLetter(message[i..][j], "timed out"[j])
  }

  lemma {:induction false} LowerIs(s: string)
    ensures |Lower(s)| == |s|
    ensures forall i, d | 0 <= i < |s| && !('A' <= d <= 'Z') :: Lower(s)[i] == d <==> SameLetter(s[i], d)
  {
  }

  lemma {:induction false} ContainsIff(s: string, part: string)
    ensures Contains(s, part) <==> exists i: nat :: StandsAt(s, part, i)
  {
    if part <= s {
      assert StandsAt(s, part, 0);
    } else if s != "" {
      ContainsIff(s[1..], part);
      if i: nat :| StandsAt(s[1..], part, i) {
        assert s[i + 1..i + 1 + |part|] == s[1..][i..i + |part|];
        assert StandsAt(s, part, i + 1);
      }
      if i: nat :| StandsAt(s, part, i) {
        assert i > 0 && s[1..][i - 1..i - 1 + |part|] == s[i..i + |part|];
        assert StandsAt(s[1..], part, i - 1);
      }
    }
  }

  lemma {:induction false} SaysInLowerCase(message: string, i: nat)
    ensures StandsAt(Lower(message), "timed out", i) <==> SaysTimedOut(message, i)
  {
    hide SameLetter, Lower;
    LowerIs(message);
    var words := "timed out";
    if i + 9 <= |message| {
      assert forall j: nat | j < 9 :: message[i..][j] == message[i + j];
      var here := Lower(message)[i..i + 9];
      assert forall j: nat | j < 9 :: here[j] == Lower(message)[i + j];
      assert here == words <==> forall j: nat | j < 9 :: here[j] == words[j];
    }
  }

  /** A message is taken for a timeout exactly if it says so somewhere. */
  lemma {:induction false} TimedOutIff(message: string)
    ensures TimedOut(message) <==> exists i: nat :: SaysTimedOut(message, i)
  {
    hide Contains, StandsAt, SaysTimedOut, Lower;
    ContainsIff(Lower(message), "timed out");
    forall i: nat
      ensures StandsAt(Lower(message), "timed out", i) <==> SaysTimedOut(message, i)
    {
      SaysInLowerCase(message, i);
    }
  }

  /** In particular the message of the prompt timer is, whatever label and times are in it. */
  lemma {:induction false} TimerMessageTimedOut(name: string, rest: string)
    ensures TimedOut(name + ": translation prompt timed out after " + rest)
  {
    hide TimedOut;
    var before := name + ": translation prompt ";
    var message := name + ": translation prompt timed out after " + rest;
    assert message == before + "timed out" + (" after " + rest);
    assert forall j: nat | j < 9 :: message[|before|..][j] == "timed out"[j];
    assert SaysTimedOut(message, |before|);
    TimedOutIff(message);
  }

  // ---------- what a reply leads to ----------

  predicate Unanswered(answers: map<string, string>, key: string) {
    key !in answers || Text.Trim(answers[key]) == ""
  }

  /** A reply is accepted exactly if every item has an answer that is not blank. */
  lemma {:induction false} AcceptedIff(items: Batch, answers: map<string, string>)
    ensures Attempt(items, Reply(answers)).Ok? <==> forall j | 0 <= j < |items| :: !Unanswered(answers, items[j].key)
  {
    if items != [] {
      AcceptedIff(items[..|items| - 1], answers);
    }
  }

  /** Otherwise the first item without one is named. */
  lemma {:induction false} FirstUnansweredIsNamed(items: Batch, answers: map<string, string>, i: nat)
    requires i < |items| && Unanswered(answers, items[i].key)
    requires forall j | 0 <= j < i :: !Unanswered(answers, items[j].key)
    ensures Attempt(items, Reply(answers)) == Err("missing translation for " + items[i].key)
  {
    hide Unanswered;
    if i < |items| - 1 {
      FirstUnansweredIsNamed(items[..|items| - 1], answers, i);
    } else {
      AcceptedIff(items[..i], answers);
      LastUnanswered(items, answers);
    }
  }

  lemma {:induction false} LastUnanswered(items: Batch, answers: map<string, string>)
    requires items != [] && Unanswered(answers, items[|items| - 1].key) && Accept(items[..|items| - 1], answers).Ok?
    ensures Accept(items, answers) == Err("missing translation for " + items[|items| - 1].key)
  {
  }

  // ---------- the course of a run ----------

  /** A prompt of several items that times out is followed by their two halves, the first one not the smaller. */
  lemma {:induction false} TimeoutSplits(items: Batch, attempt: nat, lastError: string, oracle: Oracle, at: nat,
                                         message: string, i: nat)
    requires attempt < TRANSLATE_MAX_ATTEMPTS && |items| > 1
    requires oracle(at) == Failed(message) && SaysTimedOut(message, i)
    ensures var mid := |items| - |items| / 2;
            var left := Translate(items[..mid], 0, "", oracle, at + 1);
            var right := Translate(items[mid..], 0, "", oracle, at + 1 + left.prompts);
            var run := Translate(items, attempt, lastError, oracle, at);
            if left.result.Err? then run == Run(left.result, 1 + left.prompts)
            else if right.result.Err? then run == Run(right.result, 1 + left.prompts + right.prompts)
            else run == Run(Ok(left.result.value + right.result.value), 1 + left.prompts + right.prompts)
  {
    hide TimedOut, SaysTimedOut, Translate;
    TimedOutIff(message);
    TranslateStep(items, attempt, lastError, oracle, at);
  }

  /** A prompt of a single item that times out is the end. */
  lemma {:induction false} TimeoutOfOne(items: Batch, attempt: nat, lastError: string, oracle: Oracle, at: nat,
                                        message: string, i: nat)
    requires attempt < TRANSLATE_MAX_ATTEMPTS && |items| == 1
    requires oracle(at) == Failed(message) && SaysTimedOut(message, i)
    ensures Translate(items, attempt, lastError, oracle, at) == Run(Err(message), 1)
  {
    hide TimedOut, SaysTimedOut;
    TimedOutIff(message);
  }

  /** After any other failure the same items are asked for once more, and after a second one no more. */
  lemma {:induction false} OtherFailureRetries(items: Batch, oracle: Oracle, at: nat, first: string)
    requires Attempt(items, oracle(at)) == Err(first) && forall i: nat :: !SaysTimedOut(first, i)
    ensures match Attempt(items, oracle(at + 1))
            case Ok(m) => Translate(items, 0, "", oracle, at) == Run(Ok(m), 2)
            case Err(second) =>
              (forall i: nat :: !SaysTimedOut(second, i)) ==>
                Translate(items, 0, "", oracle, at) == Run(Err(second), 2)
  {
    hide TimedOut, SaysTimedOut, Translate, Attempt;
    TimedOutIff(first);
    TranslateStep(items, 0, "", oracle, at);
    TranslateStep(items, 1, first, oracle, at + 1);
    if Attempt(items, oracle(at + 1)).Err? {
      var second := Attempt(items, oracle(at + 1)).error;
      TimedOutIff(second);
      TranslateStep(items, 2, second, oracle, at + 2);
    }
  }
}
