/**
 * `useSpeechRecognition`: a continuous recognizer with interim results. Each
 * session keeps its own accumulated final text, `fullTranscript`; every final
 * result appends its text and a space and is reported, trimmed, to the caller;
 * the displayed transcript is the accumulated text followed by the interim text
 * of the latest event.
 */
module SpeechSession {
  import opened Wrappers
  import opened JsString
  import opened Recognition

  /** One result of an event: the transcript of its first alternative and whether it is final. */
  datatype RecognitionResult = RecognitionResult(transcript: string, isFinal: bool)

  /** What the final results among `rs` append to `fullTranscript`: each text and a space, in order. */
  function FinalText(rs: seq<RecognitionResult>): string
  {
    if rs == [] then ""
    else FinalText(rs[..|rs| - 1]) + (if rs[|rs| - 1].isFinal then rs[|rs| - 1].transcript + " " else "")
  }

  /** The interim text of an event: the texts of the non-final results among `rs`, in order. */
  function InterimText(rs: seq<RecognitionResult>): string
  {
    if rs == [] then ""
    else InterimText(rs[..|rs| - 1]) + (if rs[|rs| - 1].isFinal then "" else rs[|rs| - 1].transcript)
  }

  /**
   * The values passed to `onFinalTranscript` when `rs` arrive after `acc` was
   * accumulated: one per final result, the trimmed accumulation up to and
   * including it.
   */
  function FinalCallbacks(acc: string, rs: seq<RecognitionResult>): seq<string>
  {
    if rs == [] then []
    else FinalCallbacks(acc, rs[..|rs| - 1])
         + (if rs[|rs| - 1].isFinal then [Trim(acc + FinalText(rs))] else [])
  }

  function CountFinals(rs: seq<RecognitionResult>): nat
  {
    if rs == [] then 0 else CountFinals(rs[..|rs| - 1]) + (if rs[|rs| - 1].isFinal then 1 else 0)
  }

  /** The results an event handles: those from `resultIndex` on. */
  function Handled(resultIndex: nat, results: seq<RecognitionResult>): (rs: seq<RecognitionResult>)
    ensures |rs| <= |results|
  {
    if resultIndex < |results| then results[resultIndex..] else []
  }

  /** Final text is appended result by result, so two runs of results append what their concatenation does. */
  lemma {:induction false} FinalTextAppend(a: seq<RecognitionResult>, b: seq<RecognitionResult>)
    ensures FinalText(a + b) == FinalText(a) + FinalText(b)
    decreases |b|
  {
    if b == [] {
      assert a + b == a;
    } else {
      var b' := b[..|b| - 1];
      assert (a + b)[..|a + b| - 1] == a + b';
      FinalTextAppend(a, b');
    }
  }

  /** The same holds for the interim text. */
  lemma {:induction false} InterimTextAppend(a: seq<RecognitionResult>, b: seq<RecognitionResult>)
    ensures InterimText(a + b) == InterimText(a) + InterimText(b)
    decreases |b|
  {
    if b == [] {
      assert a + b == a;
    } else {
      var b' := b[..|b| - 1];
      assert (a + b)[..|a + b| - 1] == a + b';
      InterimTextAppend(a, b');
    }
  }

  /**
   * Reporting is incremental: the callbacks for `a + b` are those for `a` followed by
   * those for `b` on top of what `a` accumulated.
   */
  lemma {:induction false} FinalCallbacksAppend(acc: string, a: seq<RecognitionResult>, b: seq<RecognitionResult>)
    ensures FinalCallbacks(acc, a + b) == FinalCallbacks(acc, a) + FinalCallbacks(acc + FinalText(a), b)
    decreases |b|
  {
    if b == [] {
      assert a + b == a;
    } else {
      var b' := b[..|b| - 1];
      assert (a + b)[..|a + b| - 1] == a + b';
      FinalCallbacksAppend(acc, a, b');
      FinalTextAppend(a, b);
      assert acc + FinalText(a + b) == (acc + FinalText(a)) + FinalText(b);
    }
  }

  /** One more result extends the final text, the interim text and the callbacks by its own share. */
  lemma Step(acc: string, rs: seq<RecognitionResult>, r: RecognitionResult)
    ensures FinalText(rs + [r]) == FinalText(rs) + (if r.isFinal then r.transcript + " " else "")
    ensures InterimText(rs + [r]) == InterimText(rs) + (if r.isFinal then "" else r.transcript)
    ensures FinalCallbacks(acc, rs + [r])
         == FinalCallbacks(acc, rs) + (if r.isFinal then [Trim(acc + FinalText(rs + [r]))] else [])
  {
    assert (rs + [r])[..|rs + [r]| - 1] == rs;
  }

  /** The loop of `onresult` keeps its three accumulators equal to their specifications. */
  lemma StepState(acc: string, rs: seq<RecognitionResult>, r: RecognitionResult,
                  full: string, interim: string, finals: seq<string>)
    requires full == acc + FinalText(rs)
    requires interim == InterimText(rs)
    requires finals == FinalCallbacks(acc, rs)
    ensures r.isFinal ==> full + r.transcript + " " == acc + FinalText(rs + [r])
    ensures r.isFinal ==> finals + [Trim(full + r.transcript + " ")] == FinalCallbacks(acc, rs + [r])
    ensures r.isFinal ==> interim == InterimText(rs + [r])
    ensures !r.isFinal ==> full == acc + FinalText(rs + [r])
    ensures !r.isFinal ==> finals == FinalCallbacks(acc, rs + [r])
    ensures !r.isFinal ==> interim + r.transcript == InterimText(rs + [r])
  {
    Step(acc, rs, r);
    if r.isFinal {
      assert full + r.transcript + " " == acc + (FinalText(rs) + (r.transcript + " "));
    }
  }

  /**
   * The loop of `onresult` over the results from `resultIndex` on, starting from the
   * final text `acc` gathered so far: the new final text, the interim text of this
   * event and the values passed to `onFinalTranscript`.
   */
  method HandleResults(acc: string, resultIndex: nat, results: seq<RecognitionResult>)
    returns (full: string, interimTranscript: string, finals: seq<string>)
    ensures full == acc + FinalText(Handled(resultIndex, results))
    ensures interimTranscript == InterimText(Handled(resultIndex, results))
    ensures finals == FinalCallbacks(acc, Handled(resultIndex, results))
  {
    var from := if resultIndex < |results| then resultIndex else |results|;
    full := acc;
    interimTranscript := "";
    finals := [];
    var i := from;
    while i < |results|
      invariant from <= i <= |results|
      invariant full == acc + FinalText(results[from..i])
      invariant interimTranscript == InterimText(results[from..i])
      invariant finals == FinalCallbacks(acc, results[from..i])
    {
      assert results[from..i + 1] == results[from..i] + [results[i]];
      StepState(acc, results[from..i], results[i], full, interimTranscript, finals);
      var result := results[i];
      if result.isFinal {
        full := full + result.transcript + " ";
        finals := finals + [Trim(full)];
      } else {
        interimTranscript := interimTranscript + result.transcript;
      }
      i := i + 1;
    }
    assert results[from..|results|] == Handled(resultIndex, results);
  }

  /** `onFinalTranscript` is called exactly once per final result. */
  lemma {:induction false} OneCallbackPerFinal(acc: string, rs: seq<RecognitionResult>)
    ensures |FinalCallbacks(acc, rs)| == CountFinals(rs)
  {
    if rs != [] {
      OneCallbackPerFinal(acc, rs[..|rs| - 1]);
    }
  }

  /** Every value passed to `onFinalTranscript` is trimmed. */
  lemma {:induction false} CallbacksTrimmed(acc: string, rs: seq<RecognitionResult>)
    ensures forall k :: 0 <= k < |FinalCallbacks(acc, rs)| ==> NoEdgeSpace(FinalCallbacks(acc, rs)[k])
  {
    if rs != [] {
      CallbacksTrimmed(acc, rs[..|rs| - 1]);
    }
  }

  /** Results that are not final leave the accumulated text alone and report nothing. */
  lemma {:induction false} InterimOnly(acc: string, rs: seq<RecognitionResult>)
    requires forall k :: 0 <= k < |rs| ==> !rs[k].isFinal
    ensures FinalText(rs) == "" && FinalCallbacks(acc, rs) == []
  {
    if rs != [] {
      InterimOnly(acc, rs[..|rs| - 1]);
    }
  }

  /** Final results contribute no interim text. */
  lemma {:induction false} FinalOnly(rs: seq<RecognitionResult>)
    requires forall k :: 0 <= k < |rs| ==> rs[k].isFinal
    ensures InterimText(rs) == ""
  {
    if rs != [] {
      FinalOnly(rs[..|rs| - 1]);
    }
  }

  /** The state the hook returns, with the recognizer reference and the current session's accumulation. */
  class SpeechRecognitionHook {
    /** Whether the browser provides a `SpeechRecognition` constructor. */
    const supported: bool
    var transcript: string
    var speechDetected: bool
    var error: Option<string>
    var isListening: bool
    /** `recognitionRef.current`. */
    var recognition: Option<Recognizer>
    /** The `fullTranscript` of the session `recognition` belongs to. */
    var fullTranscript: string

    /** A recognizer exists only where the browser supports one, and it is continuous with interim results; the accumulated text begins the transcript. */
    predicate Valid()
      reads this
    {
      && (recognition.Some? ==> supported && recognition.value.continuous && recognition.value.interimResults)
      && fullTranscript <= transcript
    }

    constructor (supported: bool)
      ensures Valid()
      ensures this.supported == supported
      ensures transcript == "" && !speechDetected && error == None && !isListening
      ensures recognition == None && fullTranscript == ""
    {
      this.supported := supported;
      transcript := "";
      speechDetected := false;
      error := None;
      isListening := false;
      recognition := None;
      fullTranscript := "";
    }

    /**
     * `startListening`, with the hook's current `inputLang`. `startError` is the
     * message of an exception thrown by the recognizer's own `start()`, if any.
     */
    method StartListening(inputLang: string, startError: Option<string>)
      requires Valid()
      modifies this
      ensures Valid()
      ensures transcript == old(transcript) && speechDetected == old(speechDetected)
      ensures !supported ==>
        && error == Some(StartFailure(NOT_SUPPORTED)) && !isListening
        && recognition == old(recognition) && fullTranscript == old(fullTranscript)
      ensures supported && old(isListening) ==>
        && error == Some(StartFailure(ALREADY_LISTENING)) && !isListening
        && recognition == old(recognition) && fullTranscript == old(fullTranscript)
      ensures supported && !old(isListening) && startError.Some? ==>
        && error == Some(StartFailure(startError.value)) && !isListening
        && recognition == old(recognition) && fullTranscript == old(fullTranscript)
      ensures supported && !old(isListening) && startError.None? ==>
        && recognition == Some(Recognizer(inputLang, true, true)) && fullTranscript == ""
        && isListening && error == None
    {
      if !supported {
        error := Some(StartFailure(NOT_SUPPORTED));
        isListening := false;
        return;
      }
      if isListening {
        error := Some(StartFailure(ALREADY_LISTENING));
        isListening := false;
        return;
      }
      var r := Recognizer(inputLang, true, true);
      if startError.Some? {
        error := Some(StartFailure(startError.value));
        isListening := false;
        return;
      }
      recognition := Some(r);
      fullTranscript := "";
      isListening := true;
      error := None;
    }

    /** `stopListening`. The reference to the stopped recognizer is kept. */
    method StopListening()
      requires Valid()
      modifies this
      ensures Valid()
      ensures transcript == old(transcript) && recognition == old(recognition) && fullTranscript == old(fullTranscript)
      ensures old(recognition).None? ==>
        && error == Some(StopFailure(NO_SESSION))
        && isListening == old(isListening) && speechDetected == old(speechDetected)
      ensures old(recognition).Some? ==> !isListening && !speechDetected && error == None
    {
      if recognition.None? {
        error := Some(StopFailure(NO_SESSION));
        return;
      }
      isListening := false;
      speechDetected := false;
      error := None;
    }

    /**
     * `onresult`: the results from `resultIndex` on, in order. Returns the values
     * passed to `onFinalTranscript`, one per final result.
     */
    method OnResult(resultIndex: nat, results: seq<RecognitionResult>) returns (finals: seq<string>)
      requires Valid() && recognition.Some?
      modifies this
      ensures Valid()
      ensures fullTranscript == old(fullTranscript) + FinalText(Handled(resultIndex, results))
      ensures transcript == fullTranscript + InterimText(Handled(resultIndex, results))
      ensures finals == FinalCallbacks(old(fullTranscript), Handled(resultIndex, results))
      ensures speechDetected == old(speechDetected) && error == old(error)
      ensures isListening == old(isListening) && recognition == old(recognition)
    {
      var full, interimTranscript;
      full, interimTranscript, finals := HandleResults(fullTranscript, resultIndex, results);
      fullTranscript := full;
      transcript := full + interimTranscript;
    }

    /** `onerror`: the message for the code; listening and speech detection stop. */
    method OnError(code: string)
      requires Valid() && recognition.Some?
      modifies this
      ensures Valid()
      ensures error == Some(OnErrorMessage(code)) && !isListening && !speechDetected
      ensures transcript == old(transcript) && recognition == old(recognition) && fullTranscript == old(fullTranscript)
    {
      error := Some(OnErrorMessage(code));
      isListening := false;
      speechDetected := false;
    }

    /** `onspeechstart`. */
    method OnSpeechStart()
      requires Valid() && recognition.Some?
      modifies this
      ensures Valid()
      ensures speechDetected
      ensures transcript == old(transcript) && error == old(error) && isListening == old(isListening)
      ensures recognition == old(recognition) && fullTranscript == old(fullTranscript)
    {
      speechDetected := true;
    }

    /** `onspeechend`. */
    method OnSpeechEnd()
      requires Valid() && recognition.Some?
      modifies this
      ensures Valid()
      ensures !speechDetected
      ensures transcript == old(transcript) && error == old(error) && isListening == old(isListening)
      ensures recognition == old(recognition) && fullTranscript == old(fullTranscript)
    {
      speechDetected := false;
    }

    /** `onend`: the session is over; the accumulated text and the displayed transcript stay. */
    method OnEnd()
      requires Valid() && recognition.Some?
      modifies this
      ensures Valid()
      ensures !isListening && !speechDetected
      ensures transcript == old(transcript) && error == old(error)
      ensures recognition == old(recognition) && fullTranscript == old(fullTranscript)
    {
      isListening := false;
      speechDetected := false;
    }

    /** The `setIsListening` setter the hook hands out. */
    method SetIsListening(value: bool)
      requires Valid()
      modifies this
      ensures Valid()
      ensures isListening == value
      ensures transcript == old(transcript) && speechDetected == old(speechDetected) && error == old(error)
      ensures recognition == old(recognition) && fullTranscript == old(fullTranscript)
    {
      isListening := value;
    }
  }
}
