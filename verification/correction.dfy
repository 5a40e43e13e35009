/** `correct_input`: the model's reply to the correction prompt decides
    whether the user's utterance is logged as a mistake, the corrected form
    is cut out of that reply, and the cleaned reply is the feedback shown.
    The reply is an input here; the model call that produces it is not
    modelled. */
module Correction {
  import opened Strings
  import opened Trim
  import opened ThinkTags
  import opened MistakeStore

  /** The reply that means "no mistake". */
  const Approval: string := "Correct!"

  /** The marker that introduces the corrected form in a reply. */
  const Marker: string := "Corrected to:"

  /** The correction stored when the reply has no marker. */
  const ParseError: string := "Parsing error - check LLM output."

  lemma MarkerShape()
    ensures UniqueHead(Marker) && '.' !in Marker
  {
  }

  /** `response.split("Corrected to:")[1].split(".")[0].strip()`, and the
      fallback taken when indexing `[1]` raises `IndexError`. */
  function ExtractCorrection(response: string): (c: string)
    ensures !Contains(response, Marker) ==> c == ParseError
    ensures Contains(response, Marker) ==> Trimmed(c) && '.' !in c && !Contains(c, Marker)
  {
    var parts := Split(response, Marker);
    SplitFacts(response, Marker);
    if |parts| < 2 then
      ParseError
    else
      SentenceFacts(parts[1]);
      Strip(Split(parts[1], ".")[0])
  }

  /** What is cut out of the text after the marker has neither a period nor,
      when that text has none, a marker. */
  lemma SentenceFacts(tail: string)
    ensures '.' !in Strip(Split(tail, ".")[0])
    ensures !Contains(tail, Marker) ==> !Contains(Strip(Split(tail, ".")[0]), Marker)
  {
    var sentence := Split(tail, ".")[0];
    SplitFacts(tail, ".");
    StripKeepsAbsence(sentence, ".");
    CharContains(Strip(sentence), '.');
    if !Contains(tail, Marker) {
      FirstPartKeepsAbsence(tail, ".", Marker);
      StripKeepsAbsence(sentence, Marker);
    }
  }

  /** The corrected form is the first sentence after the first marker: for
      a reply made of text without the marker, the marker, a sentence `x`
      with neither a marker nor a period, and then nothing, a period, or a
      second marker, the correction is `x` stripped. */
  lemma CorrectionIsFirstSentence(a: string, x: string, b: string)
    requires !Contains(a, Marker)
    requires !Contains(x, Marker) && '.' !in x
    requires b == [] || b[0] == '.' || (|Marker| <= |b| && b[..|Marker|] == Marker)
    ensures ExtractCorrection(a + Marker + x + b) == Strip(x)
  {
    if b == [] {
      assert a + Marker + x + b == a + Marker + x;
      CorrectionAtEnd(a, x);
    } else if b[0] == '.' {
      assert a + Marker + x + b == a + Marker + (x + ['.'] + b[1..]);
      CorrectionBeforePeriod(a, x, b[1..]);
    } else {
      assert a + Marker + x + b == a + Marker + (x + Marker + b[|Marker|..]);
      CorrectionBeforeMarker(a, x, b[|Marker|..]);
    }
  }

  /** The part after the first marker is what the second split sees. */
  lemma AfterFirstMarker(a: string, y: string)
    requires !Contains(a, Marker)
    ensures ExtractCorrection(a + Marker + y) == Strip(Split(Split(y, Marker)[0], ".")[0])
  {
    MarkerShape();
    SplitAfterFreeHead(a, y, Marker);
    ExtractionSteps(a + Marker + y);
  }

  lemma CorrectionAtEnd(a: string, x: string)
    requires !Contains(a, Marker)
    requires !Contains(x, Marker) && '.' !in x
    ensures ExtractCorrection(a + Marker + x) == Strip(x)
  {
    AfterFirstMarker(a, x);
    SentenceAtEnd(x);
  }

  lemma CorrectionBeforePeriod(a: string, x: string, rest: string)
    requires !Contains(a, Marker)
    requires !Contains(x, Marker) && '.' !in x
    ensures ExtractCorrection(a + Marker + (x + ['.'] + rest)) == Strip(x)
  {
    AfterFirstMarker(a, x + ['.'] + rest);
    SentenceBeforePeriod(x, rest);
  }

  lemma CorrectionBeforeMarker(a: string, x: string, rest: string)
    requires !Contains(a, Marker)
    requires !Contains(x, Marker) && '.' !in x
    ensures ExtractCorrection(a + Marker + (x + Marker + rest)) == Strip(x)
  {
    AfterFirstMarker(a, x + Marker + rest);
    SentenceBeforeMarker(x, rest);
  }

  /** `ExtractCorrection` on a reply that has the marker, step by step. */
  lemma ExtractionSteps(response: string)
    requires |Split(response, Marker)| >= 2
    ensures ExtractCorrection(response) == Strip(Split(Split(response, Marker)[1], ".")[0])
  {
  }

  /** The first sentence after the marker when the reply ends there. */
  lemma SentenceAtEnd(x: string)
    requires !Contains(x, Marker) && '.' !in x
    ensures Split(Split(x, Marker)[0], ".")[0] == x
  {
    CharContains(x, '.');
  }

  /** The first sentence after the marker when a second marker follows. */
  lemma SentenceBeforeMarker(x: string, rest: string)
    requires !Contains(x, Marker) && '.' !in x
    ensures Split(Split(x + Marker + rest, Marker)[0], ".")[0] == x
  {
    MarkerShape();
    SplitAfterFreeHead(x, rest, Marker);
    CharContains(x, '.');
  }

  /** The first sentence after the marker when a period follows: the
      marker cannot start before the period, as it contains none. */
  lemma SentenceBeforePeriod(x: string, rest: string)
    requires !Contains(x, Marker) && '.' !in x
    ensures Split(Split(x + ['.'] + rest, Marker)[0], ".")[0] == x
  {
    MarkerShape();
    var y := x + ['.'] + rest;
    forall j | 0 <= j < |x| + 1
      ensures !OccursAt(y, Marker, j)
    {
      NoOccurrenceOverChar(x, '.', rest, Marker, j);
    }
    assert y[..|x| + 1] == x + ['.'];
    SplitHeadKeepsPrefix(y, Marker, x + ['.']);
    var between := Split(y, Marker)[0];
    var tail := between[|x| + 1..];
    assert between == x + "." + tail;
    CharContains(x, '.');
    SplitAfterFreeHead(x, tail, ".");
  }

  /** What one call of `correct_input` leaves behind. */
  datatype Outcome = Outcome(feedback: string, store: Store)

  /** `correct_input(user_input, …)` given the model's raw `response` and
      the insertion time. The mistake test looks at the raw response, so an
      "Correct!" inside a reasoning block still counts; the feedback is the
      cleaned response. */
  function CorrectInput(userInput: string, response: string, timestamp: string, store: Store): (o: Outcome)
    ensures o.feedback == CleanResponse(response)
    ensures Contains(response, Approval) ==> o.store == store
    ensures !Contains(response, Approval) ==>
      && |o.store| == |store| + 1
      && o.store[..|store|] == store
      && o.store[|store|].userInput == userInput
      && o.store[|store|].mistake == userInput
      && o.store[|store|].correction == ExtractCorrection(response)
      && o.store[|store|].timestamp == timestamp
  {
    var store' :=
      if !Contains(response, Approval) then
        Insert(store, Record(userInput, userInput, ExtractCorrection(response), timestamp))
      else
        store;
    Outcome(CleanResponse(response), store')
  }

  /** The worked example "Mistake found. Corrected to: Hola, ¿cómo estás?.
      Explanation...": the correction is the text between the marker and the
      next period, stripped. */
  lemma MarkerExample(before: string, sentence: string, after: string)
    requires before == "Mistake found. "
    requires sentence == " Hola, \U{BF}c\U{F3}mo est\U{E1}s?"
    requires after == ". Explanation..."
    ensures ExtractCorrection(before + Marker + sentence + after) == "Hola, \U{BF}c\U{F3}mo est\U{E1}s?"
  {
    assert !Contains(before, Marker) && !Contains(sentence, Marker) && '.' !in sentence by {
      HeadAbsent(before, Marker);
      HeadAbsent(sentence, Marker);
    }
    assert after[0] == '.';
    CorrectionIsFirstSentence(before, sentence, after);
    ExampleSentenceStrips(sentence);
  }

  lemma ExampleSentenceStrips(sentence: string)
    requires sentence == " Hola, \U{BF}c\U{F3}mo est\U{E1}s?"
    ensures Strip(sentence) == "Hola, \U{BF}c\U{F3}mo est\U{E1}s?"
  {
    assert sentence[..1] == " " && sentence[|sentence|..] == [];
    var core := sentence[1..|sentence|];
    assert core == "Hola, \U{BF}c\U{F3}mo est\U{E1}s?";
    assert core[0] == 'H' && core[|core| - 1] == '?';
    StripUnique(sentence, 1, |sentence|);
  }

  /** A "Correct!" hidden in a reasoning block suppresses logging, while the
      feedback shown is only the text after the block. */
  lemma HiddenApprovalSuppressesLogging(userInput: string, visible: string, timestamp: string, store: Store)
    requires '<' !in visible && Trimmed(visible)
    ensures CorrectInput(userInput, Open + Approval + Close + visible, timestamp, store).store == store
    ensures CorrectInput(userInput, Open + Approval + Close + visible, timestamp, store).feedback == visible
  {
    ApprovalAfterTag(Close + visible);
    assert Open + Approval + Close + visible == Open + Approval + (Close + visible);
    HiddenBlockCleaned(visible);
  }

  lemma ApprovalAfterTag(rest: string)
    ensures Contains(Open + Approval + rest, Approval)
  {
    var response := Open + Approval + rest;
    assert response[|Open|..|Open| + |Approval|] == Approval;
    assert OccursAt(response, Approval, |Open|);
  }

  /** A reply that is one block and then trimmed text without a tag is
      cleaned to that text. */
  lemma HiddenBlockCleaned(visible: string)
    requires '<' !in visible && Trimmed(visible)
    ensures CleanResponse(Open + Approval + Close + visible) == visible
  {
    assert Open + Approval + Close + visible == [] + Open + Approval + Close + visible;
    HeadAbsent([], Open);
    HeadAbsent(Approval, Close);
    FirstBlockRemoved([], Approval, visible);
    HeadAbsent(visible, Open);
  }
}
