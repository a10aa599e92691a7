/**
 * What the two speech front ends share: the browser recognizer they configure,
 * the message their `onerror` handlers show, and the text of the errors their
 * start and stop actions report.
 */
module Recognition {

  /** The settings a session gives its `SpeechRecognition` object; the object itself is abstract. */
  datatype Recognizer = Recognizer(lang: string, continuous: bool, interimResults: bool)

  /** `Failed to start speech recognition: ${message}`. */
  function StartFailure(message: string): string {
    "Failed to start speech recognition: " + message
  }

  /** `Error stopping recognition: ${message}`. */
  function StopFailure(message: string): string {
    "Error stopping recognition: " + message
  }

  const NOT_SUPPORTED := "Speech recognition is not supported in this browser."
  const ALREADY_LISTENING := "Already listening. Stop current session first."
  const NO_SESSION := "No active recognition session"

  const GENERIC_ERROR := "Speech recognition error occurred"

  /**
   * The `onerror` handler's message for an error code. The three codes the handler
   * knows get messages of their own, which are not the generic one; every other
   * code gets the generic message.
   */
  function OnErrorMessage(code: string): (m: string)
    ensures m == GENERIC_ERROR <==> code !in ["no-speech", "audio-capture", "not-allowed"]
  {
    if code == "no-speech" then "No speech was detected"
    else if code == "audio-capture" then "Audio capture failed - check microphone permissions"
    else if code == "not-allowed" then "Microphone access was denied"
    else GENERIC_ERROR
  }

  /** A message names its code: the three known codes give three different messages. */
  lemma OnErrorMessageDistinct(a: string, b: string)
    requires OnErrorMessage(a) != GENERIC_ERROR
    ensures OnErrorMessage(a) == OnErrorMessage(b) <==> a == b
  {
  }
}
