/** The `onresult` handler of the speech recogniser (src/App.jsx): the
    transcript is lower-cased and matched by substring against two phrases,
    "start scan" before "capture"; anything else is ignored. */
module Voice {
  import opened JsStrings

  /** What a transcript asks for: `startCamera()`, `captureImage()`, or nothing. */
  datatype Command = StartCamera | CaptureImage | NoCommand

  const StartPhrase: string := "start scan"
  const CapturePhrase: string := "capture"

  /** The decision the handler makes for one transcript. */
  function Route(transcript: string): Command
  {
    var speech := ToLower(transcript);
    if Includes(speech, StartPhrase) then StartCamera
    else if Includes(speech, CapturePhrase) then CaptureImage
    else NoCommand
  }

  /** The routing rules, each in both directions and against the reference
      definition of substring occurrence: a transcript whose lower-cased text
      holds "start scan" starts the camera, even if it also holds "capture";
      otherwise one holding "capture" captures; anything else does nothing. */
  lemma RouteRules(transcript: string)
    ensures Route(transcript) == StartCamera <==>
      exists i :: OccursAt(ToLower(transcript), StartPhrase, i)
    ensures Route(transcript) == CaptureImage <==>
      (!exists i :: OccursAt(ToLower(transcript), StartPhrase, i)) &&
      (exists i :: OccursAt(ToLower(transcript), CapturePhrase, i))
    ensures Route(transcript) == NoCommand <==>
      (!exists i :: OccursAt(ToLower(transcript), StartPhrase, i)) &&
      (!exists i :: OccursAt(ToLower(transcript), CapturePhrase, i))
  {
    IncludesAt(ToLower(transcript), StartPhrase);
    IncludesAt(ToLower(transcript), CapturePhrase);
  }

  /** Routing ignores case: the transcript, its lower-cased and its
      upper-cased forms are routed alike. */
  lemma RouteIgnoresCase(transcript: string)
    ensures Route(ToLower(transcript)) == Route(transcript)
    ensures Route(ToUpper(transcript)) == Route(transcript)
  {
    LowerCaseFolds(transcript);
  }

  /** The phrase may sit anywhere in the utterance. */
  lemma StartScanInSentence()
    ensures Route("Please START SCAN now") == StartCamera
  {
    var speech := ToLower("Please START SCAN now");
    assert speech == "please start scan now";
    assert OccursAt(speech, StartPhrase, 7);
    IncludesAt(speech, StartPhrase);
  }

  /** "start scan" wins over "capture" when both occur. */
  lemma StartScanHasPriority()
    ensures Route("capture and start scan") == StartCamera
  {
    var speech := ToLower("capture and start scan");
    assert speech == "capture and start scan";
    assert OccursAt(speech, StartPhrase, 12);
    IncludesAt(speech, StartPhrase);
  }

  /** An utterance with neither phrase is ignored. */
  lemma GreetingIgnored()
    ensures Route("hello") == NoCommand
  {
    assert ToLower("hello") == "hello";
  }
}
