/** The state of the `App` component (src/App.jsx) and the handlers that
    change it. The component keeps three state cells, `image`, `plantData`
    and `error`, and changes them only through `setImage`, `setPlantData` and
    `setError` from its event handlers and promise callbacks; the rendered
    page is a function of the three. Each handler or callback is one atomic
    step here: `Handle` gives the new cells and the one outward effect of the
    step (asking for the camera, posting the image, or throwing), and the
    class `App` performs the same steps on fields. */
module Scanner {
  import opened JsStrings
  import opened DataUrl
  import opened Voice

  /** One entry of the service's findings list. */
  datatype Finding = Finding(plantName: string, disease: string, confidence: real)

  /** The JSON bodies of the service's responses the model distinguishes: an
      array of findings, an object (with its `error` member when that is a
      string), and `null`. */
  datatype Body =
    | Findings(items: seq<Finding>)
    | Record(error: Option<string>)
    | Null

  /** The three state cells of the component. */
  datatype UiState = UiState(image: Option<string>, plantData: Body, error: Option<string>)

  /** `useState(null)`, `useState([])`, `useState(null)`. */
  const Initial: UiState := UiState(None, Findings([]), None)

  const CameraNotSupported: string := "Camera API not supported"
  const CameraAccessError: string :=
    "Error accessing camera. Please make sure you have allowed camera access in your browser settings."
  const UploadError: string := "Error uploading image. Please try again."
  const UploadEndpoint: string := "https://localhost:5000/upload"
  const ImageField: string := "image"

  /** The things that happen to the component: button presses, the outcome of
      the camera request, the outcome of the upload, and a speech result.
      A press of "Capture Image" carries the data URL that the canvas yields
      for the current video frame, and the availability of the camera API is
      an input, since both come from the browser. */
  datatype Event =
    | StartCameraPressed(cameraApi: bool)
    | CameraStreamReady
    | CameraAccessFailed
    | CapturePressed(frame: string)
    | UploadResponded(data: Body)
    | UploadRejected
    | SpeechResult(transcript: string, cameraApi: bool, frame: string)

  /** What a step does beyond the state cells: nothing, call `getUserMedia`,
      post the Blob as the form field "image", or throw out of the handler. */
  datatype Effect =
    | NoEffect
    | CameraRequested
    | Uploaded(endpoint: string, field: string, blob: Blob)
    | Threw(error: DecodeError)

  datatype Step = Step(state: UiState, effect: Effect)

  /** JavaScript truthiness of a string cell: set and not empty. */
  predicate Truthy(v: Option<string>)
  {
    v.Some? && v.value != ""
  }

  /** `response.data.error` is truthy. */
  predicate HasError(data: Body)
  {
    data.Record? && Truthy(data.error)
  }

  // ---------------------------------------------------------------- transitions

  /** `startCamera`: without the media-devices API it sets the error and
      returns before asking for a stream; otherwise it only asks. */
  function StartCameraStep(s: UiState, cameraApi: bool): Step
  {
    if !cameraApi then Step(s.(error := Some(CameraNotSupported)), NoEffect)
    else Step(s, CameraRequested)
  }

  /** `captureImage`: the frame's data URL becomes the image first; then it is
      decoded, and a decode that throws ends the handler before the upload. */
  function CaptureStep(s: UiState, frame: string): Step
  {
    var shown := s.(image := Some(frame));
    match DecodeDataUrl(frame)
    case Ok(blob) => Step(shown, Uploaded(UploadEndpoint, ImageField, blob))
    case Err(e) => Step(shown, Threw(e))
  }

  /** The upload's `.then` callback. Reading `.error` of a `null` body throws
      inside it, and the `.catch` after it then reports an upload error. */
  function UploadResponse(s: UiState, data: Body): UiState
  {
    if data.Null? then s.(error := Some(UploadError))
    else if HasError(data) then s.(error := data.error)
    else s.(plantData := data)
  }

  /** One step of the component. */
  function Handle(s: UiState, e: Event): Step
  {
    match e
    case StartCameraPressed(api) => StartCameraStep(s, api)
    case CameraStreamReady => Step(s, NoEffect)
    case CameraAccessFailed => Step(s.(error := Some(CameraAccessError)), NoEffect)
    case CapturePressed(frame) => CaptureStep(s, frame)
    case UploadResponded(data) => Step(UploadResponse(s, data), NoEffect)
    case UploadRejected => Step(s.(error := Some(UploadError)), NoEffect)
    case SpeechResult(transcript, api, frame) =>
      match Route(transcript)
      case StartCamera => StartCameraStep(s, api)
      case CaptureImage => CaptureStep(s, frame)
      case NoCommand => Step(s, NoEffect)
  }

  /** The state after a whole history of events. */
  function Run(s: UiState, events: seq<Event>): UiState
    decreases |events|
  {
    if events == [] then s else Run(Handle(s, events[0]).state, events[1..])
  }

  // ---------------------------------------------------------------- rendering

  /** What the page shows: the captured image, the error paragraph, the list
      of detected plants, and the "No plant data available" notice. */
  datatype View = View(
    image: Option<string>,
    errorText: Option<string>,
    findings: Option<seq<Finding>>,
    noDataNotice: bool)

  /** `plantData.length > 0`: only an array has a length. */
  predicate ListShown(data: Body)
  {
    data.Findings? && |data.items| > 0
  }

  function Render(s: UiState): View
  {
    View(
      if Truthy(s.image) then s.image else None,
      if Truthy(s.error) then s.error else None,
      if ListShown(s.plantData) then Some(s.plantData.items) else None,
      !ListShown(s.plantData) && !Truthy(s.error))
  }

  // ---------------------------------------------------------------- invariant

  /** What every reachable state satisfies: the error cell is only ever set to
      a non-empty message, and `plantData` is never `null`, so rendering never
      reads `.length` of `null`. */
  predicate Inv(s: UiState)
  {
    (s.error.Some? ==> s.error.value != "") && !s.plantData.Null?
  }

  lemma InitialInv()
    ensures Inv(Initial)
    ensures Render(Initial) == View(None, None, None, true)
  {
  }

  /** Every step keeps the invariant. */
  lemma StepKeepsInv(s: UiState, e: Event)
    requires Inv(s)
    ensures Inv(Handle(s, e).state)
  {
  }

  /** Every history of events from a state satisfying the invariant keeps it. */
  lemma {:induction false} RunKeepsInv(s: UiState, events: seq<Event>)
    requires Inv(s)
    ensures Inv(Run(s, events))
    decreases |events|
  {
    if events != [] {
      StepKeepsInv(s, events[0]);
      RunKeepsInv(Handle(s, events[0]).state, events[1..]);
    }
  }

  /** The visibility rules. In a state satisfying the invariant the error
      paragraph shows exactly when the error is set; the list shows exactly
      when `plantData` is a non-empty array, and shows its entries as they
      came; the notice shows exactly when neither the list nor an error
      does; and the list and the notice never show together. */
  lemma Visibility(s: UiState)
    requires Inv(s)
    ensures Render(s).errorText.Some? <==> s.error.Some?
    ensures Render(s).errorText.Some? ==> Render(s).errorText == s.error
    ensures Render(s).findings.Some? <==> s.plantData.Findings? && |s.plantData.items| > 0
    ensures Render(s).findings.Some? ==> Render(s).findings.value == s.plantData.items
    ensures Render(s).noDataNotice <==> Render(s).findings.None? && s.error.None?
    ensures !(Render(s).findings.Some? && Render(s).noDataNotice)
  {
  }

  /** The visibility rules hold after every history of events from the start. */
  lemma {:induction false} VisibilityAfterAnyHistory(events: seq<Event>)
    ensures Render(Run(Initial, events)).errorText.Some? <==> Run(Initial, events).error.Some?
    ensures Render(Run(Initial, events)).noDataNotice <==>
      Render(Run(Initial, events)).findings.None? && Run(Initial, events).error.None?
  {
    InitialInv();
    RunKeepsInv(Initial, events);
    Visibility(Run(Initial, events));
  }

  // ---------------------------------------------------------------- frame facts

  /** Without the camera API, `startCamera` only sets its fixed message and
      returns before the camera is asked for. */
  lemma CameraUnsupportedOnlySetsError(s: UiState)
    ensures var t := Handle(s, StartCameraPressed(false));
      t.state == UiState(s.image, s.plantData, Some(CameraNotSupported)) && t.effect == NoEffect
  {
  }

  /** A refused camera request only sets the permission guidance message. */
  lemma CameraFailureOnlySetsError(s: UiState)
    ensures Handle(s, CameraAccessFailed).state
      == UiState(s.image, s.plantData, Some(CameraAccessError))
  {
  }

  /** A response with a truthy `error` only sets the error to that text. */
  lemma ServiceErrorOnlySetsError(s: UiState, data: Body)
    requires HasError(data)
    ensures Handle(s, UploadResponded(data)).state == UiState(s.image, s.plantData, data.error)
  {
  }

  /** A failed upload, and a `null` body whose `.error` throws in the
      callback, only set the fixed upload message. */
  lemma TransportFailureOnlySetsError(s: UiState)
    ensures Handle(s, UploadRejected).state == UiState(s.image, s.plantData, Some(UploadError))
    ensures Handle(s, UploadResponded(Null)).state == UiState(s.image, s.plantData, Some(UploadError))
  {
  }

  /** A response without a truthy `error` replaces the plant data with the
      body and leaves the error as it was: success does not clear an earlier
      error. */
  lemma SuccessKeepsError(s: UiState, data: Body)
    requires !HasError(data) && !data.Null?
    ensures Handle(s, UploadResponded(data)).state == UiState(s.image, data, s.error)
  {
  }

  /** So an error from an earlier attempt stays on screen next to the list
      of a later successful one. */
  lemma StaleErrorShownWithFindings(s: UiState, items: seq<Finding>)
    requires Inv(s) && s.error.Some? && |items| > 0
    ensures var v := Render(Handle(s, UploadResponded(Findings(items))).state);
      v.errorText == s.error && v.findings == Some(items) && !v.noDataNotice
  {
  }

  /** Capturing shows the frame's data URL at once and leaves the rest; the
      upload happens exactly when the URL decodes, and carries its Blob. */
  lemma CaptureShowsFrame(s: UiState, frame: string)
    ensures Handle(s, CapturePressed(frame)).state == UiState(Some(frame), s.plantData, s.error)
    ensures Handle(s, CapturePressed(frame)).effect.Uploaded? <==> DecodeDataUrl(frame).Ok?
    ensures DecodeDataUrl(frame).Ok? ==>
      Handle(s, CapturePressed(frame)).effect
        == Uploaded(UploadEndpoint, ImageField, DecodeDataUrl(frame).value)
    ensures DecodeDataUrl(frame).Err? ==>
      Handle(s, CapturePressed(frame)).effect == Threw(DecodeDataUrl(frame).error)
  {
  }

  /** A speech result performs exactly the step of the button it names, and
      nothing at all when it names none. */
  lemma SpeechActsLikeButtons(s: UiState, transcript: string, api: bool, frame: string)
    ensures Route(transcript) == StartCamera ==>
      Handle(s, SpeechResult(transcript, api, frame)) == Handle(s, StartCameraPressed(api))
    ensures Route(transcript) == CaptureImage ==>
      Handle(s, SpeechResult(transcript, api, frame)) == Handle(s, CapturePressed(frame))
    ensures Route(transcript) == NoCommand ==>
      Handle(s, SpeechResult(transcript, api, frame)) == Step(s, NoEffect)
  {
  }

  /** Whether an event can replace the plant data: only a response without a
      truthy `error` that is not `null`. */
  predicate ReplacesData(e: Event)
  {
    e.UploadResponded? && !HasError(e.data) && !e.data.Null?
  }

  /** Across any history without such a response the plant data stays as it
      was, whatever failures, captures and speech results happen. */
  lemma {:induction false} DataKeptWithoutSuccess(s: UiState, events: seq<Event>)
    requires forall k :: 0 <= k < |events| ==> !ReplacesData(events[k])
    ensures Run(s, events).plantData == s.plantData
    decreases |events|
  {
    if events != [] {
      assert !ReplacesData(events[0]);
      DataKeptWithoutSuccess(Handle(s, events[0]).state, events[1..]);
    }
  }

  /** No step clears the error: once set, it stays set after any history,
      pressing "Start Camera" again included. */
  lemma {:induction false} ErrorNeverCleared(s: UiState, events: seq<Event>)
    requires s.error.Some?
    ensures Run(s, events).error.Some?
    decreases |events|
  {
    if events != [] {
      ErrorNeverCleared(Handle(s, events[0]).state, events[1..]);
    }
  }

  /** Starting fresh, a service error is shown and the list stays empty. */
  lemma ServiceErrorScenario()
    ensures var s := Handle(Initial, UploadResponded(Record(Some("unrecognized image")))).state;
      s == UiState(None, Findings([]), Some("unrecognized image")) &&
      Render(s) == View(None, Some("unrecognized image"), None, false)
  {
  }

  /** Starting fresh, one finding is listed exactly as the service sent it. */
  lemma FindingScenario()
    ensures var f := Finding("Tomato", "Blight", 0.92);
      var s := Handle(Initial, UploadResponded(Findings([f]))).state;
      Render(s) == View(None, None, Some([f]), false)
  {
  }

  // ---------------------------------------------------------------- the component

  /** The component with its three cells as fields. Each method is one
      handler or callback of the source and performs exactly the step
      `Handle` describes. */
  class App {
    var image: Option<string>
    var plantData: Body
    var error: Option<string>

    function State(): UiState
      reads this
    {
      UiState(image, plantData, error)
    }

    predicate Valid()
      reads this
    {
      Inv(State())
    }

    constructor ()
      ensures State() == Initial && Valid()
    {
      image, plantData, error := None, Findings([]), None;
    }

    /** The page as rendered from the current cells. While the cells keep
        the invariant, the visibility rules hold of it. */
    function Page(): (v: View)
      reads this
      ensures Valid() ==> (v.errorText.Some? <==> error.Some?)
      ensures Valid() ==> (v.findings.Some? <==> ListShown(plantData))
      ensures Valid() ==> (v.noDataNotice <==> v.findings.None? && error.None?)
      ensures !(v.findings.Some? && v.noDataNotice)
    {
      if Valid() then Visibility(State()); Render(State())
      else Render(State())
    }

    /** `startCamera`. */
    method StartCamera(cameraApi: bool) returns (effect: Effect)
      requires Valid()
      modifies this
      ensures Valid()
      ensures Step(State(), effect) == Handle(old(State()), StartCameraPressed(cameraApi))
      ensures image == old(image) && plantData == old(plantData)
      ensures !cameraApi ==> error == Some(CameraNotSupported) && effect == NoEffect
      ensures cameraApi ==> error == old(error) && effect == CameraRequested
    {
      if !cameraApi {
        error := Some(CameraNotSupported);
        return NoEffect;
      }
      effect := CameraRequested;
    }

    /** The `.catch` of the camera request. */
    method OnCameraError()
      requires Valid()
      modifies this
      ensures Valid()
      ensures State() == Handle(old(State()), CameraAccessFailed).state
      ensures image == old(image) && plantData == old(plantData) && error == Some(CameraAccessError)
    {
      error := Some(CameraAccessError);
    }

    /** `captureImage`, given the data URL the canvas produced. */
    method CaptureImage(frame: string) returns (effect: Effect)
      requires Valid()
      modifies this
      ensures Valid()
      ensures Step(State(), effect) == Handle(old(State()), CapturePressed(frame))
      ensures image == Some(frame) && plantData == old(plantData) && error == old(error)
    {
      image := Some(frame);
      var blob := DataUrlToBlob(frame);
      match blob
      case Err(e) =>
        effect := Threw(e);
      case Ok(b) =>
        effect := Uploaded(UploadEndpoint, ImageField, b);
    }

    /** The `.then` of the upload, with the `.catch` it falls into when the body is `null`. */
    method OnUploadResponse(data: Body)
      requires Valid()
      modifies this
      ensures Valid()
      ensures State() == Handle(old(State()), UploadResponded(data)).state
      ensures image == old(image)
      ensures HasError(data) ==> error == data.error && plantData == old(plantData)
      ensures !HasError(data) && !data.Null? ==> plantData == data && error == old(error)
      ensures data.Null? ==> error == Some(UploadError) && plantData == old(plantData)
    {
      if data.Null? {
        error := Some(UploadError);
      } else if HasError(data) {
        error := data.error;
      } else {
        plantData := data;
      }
    }

    /** The `.catch` of the upload. */
    method OnUploadError()
      requires Valid()
      modifies this
      ensures Valid()
      ensures State() == Handle(old(State()), UploadRejected).state
      ensures image == old(image) && plantData == old(plantData) && error == Some(UploadError)
    {
      error := Some(UploadError);
    }

    /** `recognition.onresult`: routes the transcript to the same handlers
        the buttons call. */
    method OnSpeechResult(transcript: string, cameraApi: bool, frame: string)
      returns (effect: Effect)
      requires Valid()
      modifies this
      ensures Valid()
      ensures Step(State(), effect) == Handle(old(State()), SpeechResult(transcript, cameraApi, frame))
      ensures Route(transcript) == NoCommand ==> State() == old(State()) && effect == NoEffect
    {
      var command := Route(transcript);
      if command.StartCamera? {
        effect := StartCamera(cameraApi);
      } else if command.CaptureImage? {
        effect := CaptureImage(frame);
      } else {
        effect := NoEffect;
      }
    }
  }
}
