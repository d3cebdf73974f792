# Plant scanner: a verified model of the `App` component

The plant scanner is a React component, `App` in `src/App.jsx`. It shows a
live camera view. It grabs a frame as a PNG data URL, turns that data URL
into a binary Blob and posts it to a recognition service. It then shows the
service's list of findings or its error message. Voice commands can trigger
the same actions as the buttons. This project models, in Dafny, the logic
inside that component:

- `dataURLtoBlob` (`data_url.dfy`). The model gives the JavaScript `split`
  semantics exactly (`js_strings.dfy`), including `undefined` for a missing
  piece. Base64 is decoded the way `atob` does it (`base64.dfy`): the
  "forgiving-base64 decode" of the WHATWG Infra standard over the alphabet of
  section 4 of RFC 4648. The copy of character codes into a fresh
  `Uint8Array` is a loop over an `array`, and the store's ToUint8 reduction
  is written out. The Blob's `type` goes through the normalisation of the W3C
  File API's Blob constructor. Every place where the JavaScript throws
  becomes an `Err`.
- The speech `onresult` matcher (`voice.dfy`). It lower-cases the transcript,
  then checks for "start scan" first and "capture" second, by substring.
- The three state cells `image`, `plantData` and `error` (`scanner.dfy`).
  Each handler and promise callback is one step of `Handle`, and `Render`
  says what the page shows. The class `App` performs the same steps on
  fields, and each of its methods is proved to match `Handle`.

The main results:

- Decoding the data URL `"data:" + m + params + "," + Encode(b)` gives back
  exactly `b`, with type `m` as the Blob constructor stores it
  (`DataUrl.RoundTrip`). This holds whether or not `params` contains
  `;base64`, because the marker is never checked.
- Decoding fails exactly in the cases where the JavaScript throws, and a
  failed decode carries no bytes.
- Voice routing follows its priority order and ignores ASCII case.
- The camera being unsupported, the camera being refused, a service error,
  and a failed upload (including a `null` body) each change only `error`.
  A capture whose data URL fails to decode is different: it shows the frame,
  sets no message, and the exception escapes the handler
  (`Scanner.CaptureShowsFrame`). A success replaces `plantData` and leaves
  `error` untouched.
- The visibility rules of the page hold in every reachable state.

Some behaviour of the component that a reader might expect and that it does
not have, and which the model therefore does not have either:

- The component has no phase state machine: the three cells are all there is.
- It does not refuse a capture while an upload is in flight.
- It has no fallback camera constraints.
- It does not normalise the response body; it stores whatever is not an error.
- Nothing clears `error`, not even starting the camera again
  (`Scanner.ErrorNeverCleared`).
- In particular, a successful response does not clear an earlier error. As a result, a
  stale error can appear next to a fresh list of findings
  (`Scanner.StaleErrorShownWithFindings`).

## Model

| member | source | states |
|---|---|---|
| `JsStrings.Split` | src/App.jsx:72-73 | `split` with a one-character separator always gives at least one piece; what the pieces are is stated by `SplitJoin`, `SplitFirst` and `SplitSecond` |
| `JsStrings.SplitJoin` | src/App.jsx:72-73 | joining the pieces of `split(sep)` with `sep` gives back the string, and no piece contains `sep` |
| `JsStrings.SplitFirst` | src/App.jsx:73 | `split(sep)[0]` is the text before the first `sep`, or the whole string when there is none |
| `JsStrings.SplitSecond` | src/App.jsx:72-73 | `split(sep)[1]` is defined exactly when `sep` occurs, and is then the text between the first `sep` and the next one (or the end) |
| `JsStrings.Includes` | src/App.jsx:97-99 | `includes`; `IncludesAt` states it against the window definition |
| `JsStrings.IncludesAt` | src/App.jsx:97-99 | `includes(p)` holds exactly when some window of the text equals `p` |
| `JsStrings.ToLower` | src/App.jsx:94 | `toLowerCase` keeps the length and lower-cases each ASCII capital, leaving every other character alone |
| `JsStrings.LowerCaseFolds` | src/App.jsx:94 | lower-casing is idempotent, and lower-casing the upper-cased text gives the lower-cased text |
| `Base64.Encode` | src/App.jsx:72 | the padded RFC 4648 encoding, the inverse `atob` is proved against: its length is a multiple of four (`EncodeTestVectors`, `EncodeDecodeRoundTrip`) |
| `Base64.EncodeTestVectors` | src/App.jsx:72 | the encoding agrees with the seven test vectors of section 10 of RFC 4648 |
| `Base64.ForgivingDecode` | src/App.jsx:72 | the forgiving-base64 decode that `atob` performs; `EncodeDecodeRoundTrip` shows it succeeds on, and inverts, every padded encoding, and `ForeignCharFails`, `MisplacedPaddingFails` and `LengthFails` together cover every way it fails |
| `Base64.StripKeeps` | src/App.jsx:72 | every non-whitespace character of `atob`'s argument survives the whitespace stripping |
| `Base64.DropKeeps` | src/App.jsx:72 | dropping the padding removes only `=` characters |
| `Base64.ForeignCharFails` | src/App.jsx:72 | a character anywhere in the argument that is not whitespace, not `=` and not in the alphabet makes `atob` throw |
| `Base64.MisplacedPaddingFails` | src/App.jsx:72 | an `=` that is not one of the one or two trailing padding characters of a whitespace-free length divisible by four makes `atob` throw |
| `Base64.LengthFails` | src/App.jsx:72 | `atob` throws when the argument without whitespace has a length of the form 4k+1 |
| `Base64.Atob` | src/App.jsx:72 | `atob` succeeds exactly when the forgiving decode does, and each resulting code unit is below 256 |
| `Base64.DigitsRoundTrip` | src/App.jsx:72 | decoding the unpadded base64 digits of any bytes gives those bytes back, and the digit count is never of the form 4k+1 |
| `Base64.EncodeDecodeRoundTrip` | src/App.jsx:72 | `atob` of the padded RFC 4648 section 4 encoding of any bytes succeeds and yields exactly those bytes |
| `DataUrl.DecodeDataUrl` | src/App.jsx:71-80 | `dataURLtoBlob` as a function, specified by `FailureCases`, `BlobHoldsDecodedBytes` and `RoundTrip` |
| `DataUrl.BlobType` | src/App.jsx:79 | the stored type is printable ASCII with no capital letters; it is empty exactly when the given type is empty or holds a character outside U+0020..U+007E, and otherwise is the given type with each ASCII capital lower-cased |
| `DataUrl.CharCodes` | src/App.jsx:75-78 | the copied codes are as many as the characters; `CharCodesOfBinaryString` states their values |
| `DataUrl.DataUrlToBlob` | src/App.jsx:71-80 | the copy loop yields the Blob of `DecodeDataUrl`: as many bytes as the decoded string has characters, byte `i` being the code of character `i`; the `Err` cases are the throws |
| `DataUrl.CharCodesOfBinaryString` | src/App.jsx:76-78 | storing the char codes of `atob`'s output in a `Uint8Array` keeps every byte unchanged |
| `DataUrl.HeaderOfUrl` | src/App.jsx:73 | the header is the text before the URL's first comma |
| `DataUrl.MediaTypeOfHeader` | src/App.jsx:73 | the media type exists exactly when the header has a `:`, and is then the text after the first `:`, cut at the next `:` and then at the first `;` |
| `DataUrl.PayloadOfUrl` | src/App.jsx:72 | `atob`'s argument is the text between the first comma and the next one, or "undefined" when the URL has no comma |
| `DataUrl.BlobHoldsDecodedBytes` | src/App.jsx:74-79 | a successful decode holds exactly the bytes that base64-decoding produced |
| `DataUrl.FailureCases` | src/App.jsx:72-73 | the decode fails exactly when `atob` rejects the payload or the header has no `:`, and the error is `atob`'s whenever `atob` rejects |
| `DataUrl.NoCommaFails` | src/App.jsx:72 | with no comma, `atob("undefined")` is refused (nine characters), so the decode throws |
| `DataUrl.NoColonFails` | src/App.jsx:73 | with a decodable payload and no `:` in the header, the decode throws a TypeError |
| `DataUrl.FirstSeparator` | src/App.jsx:72-73 | the text before and after the first separator of `x + [c] + y` with `c` not in `x` are `x` and `y` |
| `DataUrl.EncodingHasNoSeparators` | src/App.jsx:72-73 | a base64 encoding contains no `,`, `:` or `;`, so it never disturbs the splits |
| `DataUrl.UrlParts` | src/App.jsx:72-73 | a URL made of a comma-free header, a comma and a comma-free payload splits back into them |
| `DataUrl.CutAtParameters` | src/App.jsx:73 | cutting `m + ";" + y` at the first `:` and then at the first `;` gives `m` when `m` has neither, whatever `y` holds |
| `DataUrl.MimeOfHeader` | src/App.jsx:73 | the header `"data:" + m + params` yields media type `m` when `m` has no `:` or `;` and `params` is empty or starts with `;` (`params` may hold `:`) |
| `DataUrl.RoundTrip` | src/App.jsx:71-80 | for any bytes, any media type without `,`, `:` or `;`, and any comma-free parameters that are empty or start with `;` (a `:` among them included), decoding `"data:" + m + params + "," + Encode(b)` gives a Blob of exactly `b` with type `BlobType(m)`, whether or not `;base64` is present |
| `DataUrl.BlobTypeKeepsLowerCase` | src/App.jsx:79 | a type in lower-case printable ASCII is stored by the Blob constructor unchanged |
| `DataUrl.PngTypeKept` | src/App.jsx:79 | the type "image/png" is stored unchanged |
| `DataUrl.PngRoundTrip` | src/App.jsx:48-53 | a PNG data URL of any bytes decodes to a Blob of those bytes with type "image/png" |
| `DataUrl.EmptyCanvasUrl` | src/App.jsx:71-80 | "data:," (what a canvas without pixels yields) decodes without error to an empty Blob with empty type |
| `DataUrl.PlainTextUrlFails` | src/App.jsx:72 | a non-base64 data URL such as "data:text/plain,hello" is still handed to `atob`, which refuses it |
| `DataUrl.BlobTypeIdempotent` | src/App.jsx:79 | the stored type is printable ASCII, and normalising it again changes nothing |
| `Voice.Route` | src/App.jsx:94-101 | the router; `RouteRules` states its decision in both directions and `RouteIgnoresCase` its indifference to ASCII case |
| `Voice.RouteRules` | src/App.jsx:94-101 | "start scan" in the lower-cased transcript gives StartCamera even alongside "capture"; otherwise "capture" gives CaptureImage; otherwise nothing; each in both directions |
| `Voice.RouteIgnoresCase` | src/App.jsx:94 | a transcript, its ASCII lower-cased form and its ASCII upper-cased form are routed alike |
| `Voice.StartScanInSentence` | src/App.jsx:97-98 | "Please START SCAN now" starts the camera |
| `Voice.StartScanHasPriority` | src/App.jsx:97-101 | "capture and start scan" starts the camera rather than capturing |
| `Voice.GreetingIgnored` | src/App.jsx:97-101 | "hello" triggers nothing |
| `Scanner.StartCameraStep` | src/App.jsx:12-24 | the `startCamera` step; `CameraUnsupportedOnlySetsError` states it |
| `Scanner.CaptureStep` | src/App.jsx:39-55 | the `captureImage` step; `CaptureShowsFrame` states it |
| `Scanner.UploadResponse` | src/App.jsx:56-67 | the upload's `.then` with its `.catch`; `ServiceErrorOnlySetsError`, `SuccessKeepsError` and `TransportFailureOnlySetsError` state it |
| `Scanner.Handle` | src/App.jsx:12-67 | one step of the component; `StepKeepsInv`, the frame lemmas and `SpeechActsLikeButtons` state it |
| `Scanner.Render` | src/App.jsx:141-162 | what the page shows; `Visibility` states it |
| `Scanner.InitialInv` | src/App.jsx:5-7 | the initial cells satisfy the invariant and render only the no-data notice |
| `Scanner.StepKeepsInv` | src/App.jsx:12-67 | every handler and callback keeps `error` unset or non-empty and `plantData` non-null |
| `Scanner.RunKeepsInv` | src/App.jsx:12-67 | every history of events keeps the invariant |
| `Scanner.Visibility` | src/App.jsx:141-162 | error paragraph iff `error` set; list iff `plantData` is a non-empty array, shown verbatim; notice iff neither list nor error; never list and notice together |
| `Scanner.VisibilityAfterAnyHistory` | src/App.jsx:147-162 | after any history from the initial state, the error paragraph shows iff `error` is set, and the notice shows iff there is neither list nor error |
| `Scanner.CameraUnsupportedOnlySetsError` | src/App.jsx:13-16 | a missing camera API sets only `error`, to "Camera API not supported", and asks for no stream |
| `Scanner.CameraFailureOnlySetsError` | src/App.jsx:31-34 | a failed camera request sets only `error`, to the permission guidance message |
| `Scanner.ServiceErrorOnlySetsError` | src/App.jsx:58-59 | a response with a truthy `error` sets `error` to it and leaves `plantData` and `image` unchanged |
| `Scanner.TransportFailureOnlySetsError` | src/App.jsx:64-67 | a failed upload, or a `null` body that throws in the callback, sets only `error`, to the fixed upload message |
| `Scanner.SuccessKeepsError` | src/App.jsx:58-62 | any other response replaces `plantData` with the body and leaves `error` and `image` as they were |
| `Scanner.StaleErrorShownWithFindings` | src/App.jsx:147-162 | after an earlier error, a successful response with findings shows the old error and the list together |
| `Scanner.CaptureShowsFrame` | src/App.jsx:48-55 | capturing sets `image` to the data URL and nothing else; the upload happens exactly when the URL decodes and carries its Blob; otherwise the handler throws |
| `Scanner.SpeechActsLikeButtons` | src/App.jsx:97-101 | a speech result performs exactly the step of the button it names, and nothing when it names none |
| `Scanner.DataKeptWithoutSuccess` | src/App.jsx:58-67 | across any history with no successful response, `plantData` is unchanged |
| `Scanner.ErrorNeverCleared` | src/App.jsx:12-67 | once `error` is set, it stays set after any history of events |
| `Scanner.ServiceErrorScenario` | src/App.jsx:58-59 | from the start, the response `{error: "unrecognized image"}` shows that message and an empty list |
| `Scanner.FindingScenario` | src/App.jsx:149-157 | from the start, one finding (Tomato, Blight, 0.92) is listed exactly as sent |
| `Scanner.App.constructor` | src/App.jsx:5-7 | the cells start as `null`, `[]`, `null` |
| `Scanner.App.Page` | src/App.jsx:141-162 | while the fields keep the invariant, the rendered page shows the error exactly when it is set, the list exactly when `plantData` is a non-empty array, the notice exactly when neither; list and notice never together |
| `Scanner.App.StartCamera` | src/App.jsx:12-35 | sets the unsupported message and returns, or asks for the camera and changes nothing |
| `Scanner.App.OnCameraError` | src/App.jsx:31-34 | sets only `error`, to the permission guidance message |
| `Scanner.App.CaptureImage` | src/App.jsx:39-55 | sets `image`, runs the decode loop, and either posts the Blob or throws |
| `Scanner.App.OnUploadResponse` | src/App.jsx:56-63 | sets `error` from a truthy `error` field, or replaces `plantData` keeping `error`; a `null` body sets the upload message |
| `Scanner.App.OnUploadError` | src/App.jsx:64-67 | sets only `error`, to the upload message |
| `Scanner.App.OnSpeechResult` | src/App.jsx:93-102 | routes the transcript to `StartCamera` or `CaptureImage`, or changes nothing |

## Left out

- Camera stream handling (`getUserMedia`, `srcObject`, `play()`) is left out because it is browser device I/O. Camera availability is an input. A granted stream is the event `CameraStreamReady`, which changes no cell.
- Canvas drawing and `toDataURL('image/png')` are left out because PNG encoding happens inside the browser. The captured data URL is an input.
- `axios.post` and `FormData` are left out because they are network I/O. A post becomes the effect `Uploaded(endpoint, "image", blob)`. The outcomes are the events `UploadResponded` and `UploadRejected`.
- The speech recognition lifecycle is left out because it consists of foreign API calls: construction, `lang`, `interimResults`, `start()` and the `onerror` logging. The transcript is an input.
- Asynchronous interleaving is not modelled. Each callback is one atomic step, and events may come in any order. The model does not link a response or a camera outcome to the request that caused it.
- The unreachable duplicate check (src/App.jsx:17-21), every `console.log`/`console.error` and the JSX layout are left out because they change no state.
- JsStrings.ToLower: only ASCII letters change case, whereas `toLowerCase` applies full Unicode case mapping. For the two ASCII phrases the router looks for, the decision comes out the same, because no non-ASCII character lower-cases to any of their letters. This equivalence is argued, not proved.
- JsStrings.ToUpper: only ASCII letters change case. JavaScript's `toUpperCase` maps some other characters to ASCII letters (U+017F to `S`, U+FB06 to `ST`), so `Voice.RouteIgnoresCase` states indifference to ASCII case only: "ﬆart scan" triggers nothing, while its JavaScript upper-cased form "START SCAN" starts the camera.
- Response bodies other than an array of findings, an object without a `length` member, or `null` are left out. These include strings, numbers, an `error` member that is not a string, and array items without the finding fields. A non-empty string body would make the render's `plantData.map` throw, while an empty one shows the no-data notice.
- Scanner.ListShown: an object is reduced to its `error` member, so an object with a numeric `length` member above zero, such as `{"length": 1}`, is not modelled. It passes the render's `plantData.length > 0` test and `plantData.map` then throws, whereas the model shows the no-data notice.
- `Finding.confidence` is a Dafny `real`. How the number is formatted for display is left out.
- The model assumes that React applies the `setImage` of `captureImage` even when the decode then throws out of the handler.
- The Blob constructor is modelled only for a single `ArrayBuffer` part and its `type` option.
