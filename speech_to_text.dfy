/**
 * `SpeechToText`: the older speech component. Its recognizer is fixed to
 * continuous English without interim results, and each result event shows and
 * sends the first alternative of the event's last result.
 */
module SpeechToText {
  import opened Wrappers
  import opened Recognition

  /** The recognizer settings every session of the component uses. */
  const ENGLISH_SESSION := Recognizer("en-US", true, false)

  const RESULT_FAILURE_PREFIX := "Error processing speech result: "

  /**
   * `event.results[event.results.length - 1][0].transcript`: the first alternative
   * of the last result, or nothing when that expression would throw.
   */
  function LastTranscript(results: seq<seq<string>>): Option<string>
  {
    if |results| > 0 && |results[|results| - 1]| > 0 then Some(results[|results| - 1][0]) else None
  }

  /** Only the last result counts: results before it can be anything. */
  lemma LastResultDecides(earlier: seq<seq<string>>, earlier': seq<seq<string>>, last: seq<string>)
    ensures LastTranscript(earlier + [last]) == LastTranscript(earlier' + [last])
  {
    assert (earlier + [last])[|earlier|] == last;
    assert (earlier' + [last])[|earlier'|] == last;
  }

  /** The component's state; `isListening` is the parent's state, reached through its setter. */
  class SpeechToTextComponent {
    const supported: bool
    var transcript: string
    var speechDetected: bool
    var error: Option<string>
    var isListening: bool
    /** `recognitionRef.current`. */
    var recognition: Option<Recognizer>

    /** Every recognizer the component creates is the English one. */
    predicate Valid()
      reads this
    {
      recognition.Some? ==> supported && recognition.value == ENGLISH_SESSION
    }

    constructor (supported: bool, isListening: bool)
      ensures Valid()
      ensures this.supported == supported && this.isListening == isListening
      ensures transcript == "" && !speechDetected && error == None && recognition == None
    {
      this.supported := supported;
      this.isListening := isListening;
      transcript := "";
      speechDetected := false;
      error := None;
      recognition := None;
    }

    /** `startListening`. `startError` is the message of an exception thrown by the recognizer's `start()`, if any. */
    method StartListening(startError: Option<string>)
      requires Valid()
      modifies this
      ensures Valid()
      ensures transcript == old(transcript) && speechDetected == old(speechDetected)
      ensures !supported ==>
        error == Some(StartFailure(NOT_SUPPORTED)) && !isListening && recognition == old(recognition)
      ensures supported && old(isListening) ==>
        error == Some(StartFailure(ALREADY_LISTENING)) && !isListening && recognition == old(recognition)
      ensures supported && !old(isListening) && startError.Some? ==>
        error == Some(StartFailure(startError.value)) && !isListening && recognition == old(recognition)
      ensures supported && !old(isListening) && startError.None? ==>
        recognition == Some(ENGLISH_SESSION) && isListening && error == None
    {
      if !supported {
        error := Some(StartFailure(NOT_SUPPORTED));
        isListening := false;
        return;
      }
      if isListening {
        error := Some(StartFailure(ALREADY_LISTENING));
        isListening := false;
        return;
      }
      var r := Recognizer("en-US", true, false);
      if startError.Some? {
        error := Some(StartFailure(startError.value));
        isListening := false;
        return;
      }
      recognition := Some(r);
      isListening := true;
      error := None;
    }

    /** `stopListening`. The reference to the stopped recognizer is kept. */
    method StopListening()
      requires Valid()
      modifies this
      ensures Valid()
      ensures transcript == old(transcript) && recognition == old(recognition)
      ensures old(recognition).None? ==>
        error == Some(StopFailure(NO_SESSION)) && isListening == old(isListening) && speechDetected == old(speechDetected)
      ensures old(recognition).Some? ==> !isListening && !speechDetected && error == None
    {
      if recognition.None? {
        error := Some(StopFailure(NO_SESSION));
        return;
      }
      isListening := false;
      speechDetected := false;
      error := None;
    }

    /**
     * `onresult`: the last result's first alternative becomes the transcript and is
     * returned as the value passed to `onTranscript`. When there is no such
     * alternative the lookup throws and the error shows `typeErrorMessage`, the
     * engine's message for that exception.
     */
    method OnResult(results: seq<seq<string>>, typeErrorMessage: string) returns (sent: Option<string>)
      requires Valid() && recognition.Some?
      modifies this
      ensures Valid()
      ensures sent == LastTranscript(results)
      ensures sent.Some? ==> transcript == sent.value && error == old(error)
      ensures sent.None? ==> transcript == old(transcript) && error == Some(RESULT_FAILURE_PREFIX + typeErrorMessage)
      ensures speechDetected == old(speechDetected) && isListening == old(isListening) && recognition == old(recognition)
    {
      if |results| == 0 || |results[|results| - 1]| == 0 {
        error := Some(RESULT_FAILURE_PREFIX + typeErrorMessage);
        return None;
      }
      var spokenText := results[|results| - 1][0];
      transcript := spokenText;
      sent := Some(spokenText);
    }

    /** `onerror`: the message for the code; listening and speech detection stop. */
    method OnError(code: string)
      requires Valid() && recognition.Some?
      modifies this
      ensures Valid()
      ensures error == Some(OnErrorMessage(code)) && !isListening && !speechDetected
      ensures transcript == old(transcript) && recognition == old(recognition)
    {
      error := Some(OnErrorMessage(code));
      isListening := false;
      speechDetected := false;
    }

    /** `onspeechstart`. */
    method OnSpeechStart()
      requires Valid() && recognition.Some?
      modifies this
      ensures Valid()
      ensures speechDetected
      ensures transcript == old(transcript) && error == old(error) && isListening == old(isListening)
      ensures recognition == old(recognition)
    {
      speechDetected := true;
    }

    /** `onspeechend`. */
    method OnSpeechEnd()
      requires Valid() && recognition.Some?
      modifies this
      ensures Valid()
      ensures !speechDetected
      ensures transcript == old(transcript) && error == old(error) && isListening == old(isListening)
      ensures recognition == old(recognition)
    {
      speechDetected := false;
    }

    /** `onend`. */
    method OnEnd()
      requires Valid() && recognition.Some?
      modifies this
      ensures Valid()
      ensures !isListening && !speechDetected
      ensures transcript == old(transcript) && error == old(error) && recognition == old(recognition)
    {
      isListening := false;
      speechDetected := false;
    }
  }
}
