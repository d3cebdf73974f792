/** `dataURLtoBlob` (src/App.jsx): turns the data URL that the canvas
    produces into the binary Blob that is uploaded. The URL has the shape of
    section 3 of RFC 2397, `data:<mediatype>[;base64],<data>`; the code takes
    the piece after the first comma as base64 (`atob`), copies its character
    codes into a fresh `Uint8Array`, and labels the Blob with the text between
    the header's first `:` and the following `;`. Every place where the
    JavaScript throws is an `Err` here. */
module DataUrl {
  import opened JsStrings
  import opened Base64

  /** The two exceptions the function can raise: `atob` rejecting its
      argument, and `.split` being called on `undefined`. */
  datatype DecodeError = InvalidCharacterError | TypeError

  datatype Result<T> = Ok(value: T) | Err(error: DecodeError)

  /** A Blob: its `type` and its bytes. */
  datatype Blob = Blob(mediaType: string, bytes: seq<byte>)

  /** `dataURL.split(',')[0]`: everything before the first comma. */
  function Header(url: string): string
  {
    Split(url, ',')[0]
  }

  /** The argument `atob` receives: `dataURL.split(',')[1]`, converted to a
      string, so that a URL without a comma hands it the text "undefined". */
  function PayloadArgument(url: string): string
  {
    ToDomString(Element(Split(url, ','), 1))
  }

  /** `header.split(':')[1].split(';')[0]`; `None` where `split(':')[1]` is
      `undefined` and the next `.split` throws. */
  function MediaTypeField(header: string): Option<string>
  {
    match Element(Split(header, ':'), 1)
    case None => None
    case Some(field) => Some(Split(field, ';')[0])
  }

  /** The `mimeString` of `dataURLtoBlob`, read from the URL's header. */
  function MimeString(url: string): Option<string>
  {
    MediaTypeField(Header(url))
  }

  predicate IsPrintableAscii(c: char)
  {
    0x20 <= c as int <= 0x7E
  }

  /** The `type` the Blob constructor of the W3C File API stores for the
      `type` option: the empty string if any character lies outside
      U+0020..U+007E, and otherwise the text in ASCII lower case. */
  function BlobType(t: string): (r: string)
    ensures forall i :: 0 <= i < |r| ==> IsPrintableAscii(r[i]) && !('A' <= r[i] <= 'Z')
    ensures r == [] || |r| == |t|
    ensures r == [] <==> t == [] || exists i :: 0 <= i < |t| && !IsPrintableAscii(t[i])
    ensures r != [] ==> forall i :: 0 <= i < |t| ==> r[i] == LowerChar(t[i])
  {
    if exists i :: 0 <= i < |t| && !IsPrintableAscii(t[i]) then "" else ToLower(t)
  }

  /** The conversion a `Uint8Array` store applies to the number it is given
      (ECMAScript ToUint8): reduction modulo 256. */
  function ToUint8(n: nat): byte
  {
    (n % 256) as byte
  }

  /** What the copy loop leaves in the array: `ToUint8(s.charCodeAt(i))` at each `i`. */
  function CharCodes(s: string): (r: seq<byte>)
    ensures |r| == |s|
  {
    seq(|s|, i requires 0 <= i < |s| => ToUint8(s[i] as int))
  }

  /** Every code of a binary string is below 256, so the store keeps it as it is. */
  lemma CharCodesOfBinaryString(b: seq<byte>)
    ensures CharCodes(BinaryString(b)) == b
  {
    var s := BinaryString(b);
    assert forall i :: 0 <= i < |b| ==> CharCodes(s)[i] == b[i];
  }

  /** The whole of `dataURLtoBlob` as a function. `atob` runs on the first
      line, so its failure takes precedence over a missing `:`. */
  function DecodeDataUrl(url: string): Result<Blob>
  {
    match Atob(PayloadArgument(url))
    case None => Err(InvalidCharacterError)
    case Some(byteString) =>
      match MimeString(url)
      case None => Err(TypeError)
      case Some(mime) => Ok(Blob(BlobType(mime), CharCodes(byteString)))
  }

  /** `dataURLtoBlob` as the source writes it: decode, read the media type,
      allocate the buffer, and copy the character codes in one at a time. The
      bytes are exactly as many as the decoded string has characters, and
      byte `i` is the code of character `i`. */
  method DataUrlToBlob(dataUrl: string) returns (r: Result<Blob>)
    ensures r == DecodeDataUrl(dataUrl)
    ensures r.Ok? ==>
      var byteString := Atob(PayloadArgument(dataUrl)).value;
      |r.value.bytes| == |byteString| &&
      forall i :: 0 <= i < |byteString| ==> r.value.bytes[i] as int == byteString[i] as int
  {
    var decoded := Atob(PayloadArgument(dataUrl));
    if decoded.None? {
      return Err(InvalidCharacterError);
    }
    var mime := MimeString(dataUrl);
    if mime.None? {
      return Err(TypeError);
    }
    var byteString := decoded.value;
    var ia := new byte[|byteString|];
    for i := 0 to |byteString|
      invariant forall k :: 0 <= k < i ==> ia[k] == ToUint8(byteString[k] as int)
    {
      ia[i] := ToUint8(byteString[i] as int);
    }
    assert ia[..] == CharCodes(byteString);
    r := Ok(Blob(BlobType(mime.value), ia[..]));
  }

  // ---------------------------------------------------------------- properties

  /** The header is the text before the URL's first comma. */
  lemma HeaderOfUrl(url: string)
    ensures Header(url) == Before(url, ',')
  {
    SplitFirst(url, ',');
  }

  /** The media type is the header's text after its first `:`, cut at the
      next `:` or `;`; it exists exactly when the header has a `:`. */
  lemma MediaTypeOfHeader(header: string)
    ensures MediaTypeField(header).Some? <==> ':' in header
    ensures ':' in header ==>
      MediaTypeField(header) == Some(Before(Before(After(header, ':'), ':'), ';'))
  {
    SplitSecond(header, ':');
    if ':' in header {
      SplitFirst(Before(After(header, ':'), ':'), ';');
    }
  }

  /** The payload is the text between the URL's first comma and the next
      one (the base64 alphabet has no comma, so for a well-formed URL it is
      the whole rest); without a comma it is the text "undefined". */
  lemma PayloadOfUrl(url: string)
    ensures ',' in url ==> PayloadArgument(url) == Before(After(url, ','), ',')
    ensures ',' !in url ==> PayloadArgument(url) == "undefined"
  {
    SplitSecond(url, ',');
  }

  /** Every copied code is below 256, so the `Uint8Array` store keeps the
      decoded bytes as they are: the Blob holds exactly what `atob` decoded. */
  lemma BlobHoldsDecodedBytes(url: string)
    ensures DecodeDataUrl(url).Ok? ==>
      DecodeDataUrl(url).value.bytes == ForgivingDecode(PayloadArgument(url)).value
  {
    match ForgivingDecode(PayloadArgument(url))
    case None =>
    case Some(b) =>
      CharCodesOfBinaryString(b);
  }

  /** Decoding fails exactly when `atob` rejects the payload or the header has
      no `:`, and the error says which, `atob` being checked first. A failed
      decode never yields any bytes. */
  lemma FailureCases(url: string)
    ensures DecodeDataUrl(url).Err? <==>
      ForgivingDecode(PayloadArgument(url)).None? || ':' !in Header(url)
    ensures DecodeDataUrl(url) == Err(InvalidCharacterError) <==>
      ForgivingDecode(PayloadArgument(url)).None?
  {
    MediaTypeOfHeader(Header(url));
  }

  /** A URL without a comma hands `atob` the nine characters "undefined";
      a length of the form 4k+1 is refused, so the decode throws. */
  lemma NoCommaFails(url: string)
    requires ',' !in url
    ensures DecodeDataUrl(url) == Err(InvalidCharacterError)
  {
    PayloadOfUrl(url);
    StripNoWhitespace("undefined");
  }

  /** A URL with a decodable payload but no `:` before its first comma makes
      `split(':')[1]` undefined, and the next `.split` throws. */
  lemma NoColonFails(url: string)
    requires ':' !in Header(url)
    requires ForgivingDecode(PayloadArgument(url)).Some?
    ensures DecodeDataUrl(url) == Err(TypeError)
  {
    MediaTypeOfHeader(Header(url));
  }

  /** The text before and after the first `c` of `x + [c] + y`, when `x` has no `c`. */
  lemma FirstSeparator(x: string, c: char, y: string)
    requires c !in x
    ensures c in x + [c] + y
    ensures Before(x + [c] + y, c) == x && After(x + [c] + y, c) == y
  {
    var s := x + [c] + y;
    assert s[|x|] == c;
    var i := IndexOf(s, c);
    assert s[..i] <= s;
    assert s[i + 1..] == y;
  }

  /** No comma, colon or semicolon ever appears in an encoding. */
  lemma EncodingHasNoSeparators(b: seq<byte>)
    ensures ',' !in Encode(b) && ':' !in Encode(b) && ';' !in Encode(b)
  {
    var digits := EncodeDigits(b);
    var e := Encode(b);
    forall i | 0 <= i < |e| ensures e[i] != ',' && e[i] != ':' && e[i] != ';' {
      if i < |digits| { assert e[i] == digits[i] && IsBase64Char(digits[i]); }
      else { assert e[i] == '='; }
    }
  }

  /** A URL made of a header, a comma and a payload, neither holding a comma,
      splits back into that header and that payload. */
  lemma UrlParts(header: string, payload: string)
    requires ',' !in header && ',' !in payload
    ensures Header(header + [','] + payload) == header
    ensures PayloadArgument(header + [','] + payload) == payload
  {
    var url := header + [','] + payload;
    FirstSeparator(header, ',', payload);
    HeaderOfUrl(url);
    PayloadOfUrl(url);
  }

  /** Cutting `m + ";" + y` at its first `:` and then at its first `;`
      gives back `m` when `m` holds neither: the `;` comes before any `:`. */
  lemma CutAtParameters(m: string, y: string)
    requires ':' !in m && ';' !in m
    ensures Before(Before(m + [';'] + y, ':'), ';') == m
  {
    var s := m + [';'] + y;
    var z := Before(s, ':');
    assert |z| > |m| by {
      if ':' in s {
        assert s[|z|] == ':';
        assert forall k :: 0 <= k <= |m| ==> s[k] != ':';
      }
    }
    assert z == m + [';'] + z[|m| + 1..];
    FirstSeparator(m, ';', z[|m| + 1..]);
  }

  /** A header "data:" + media type + parameters gives back the media type. */
  lemma MimeOfHeader(mediaType: string, params: string)
    requires ':' !in mediaType && ';' !in mediaType
    requires params == "" || params[0] == ';'
    ensures MediaTypeField("data:" + mediaType + params) == Some(mediaType)
  {
    var rest := mediaType + params;
    var h := "data:" + mediaType + params;
    assert h == "data" + [':'] + rest;
    FirstSeparator("data", ':', rest);
    assert After(h, ':') == rest;
    assert Before(Before(rest, ':'), ';') == mediaType by {
      if params == "" {
        assert rest == mediaType;
      } else {
        assert rest == mediaType + [';'] + params[1..];
        CutAtParameters(mediaType, params[1..]);
      }
    }
    MediaTypeOfHeader(h);
  }

  /** Round trip: the data URL built from a media type, parameters and the
      padded base64 encoding of any bytes decodes to a Blob of those very
      bytes whose type is the media type as the Blob constructor stores it.
      The parameters are never inspected: the data is base64-decoded whether
      or not they include the `;base64` marker. */
  lemma RoundTrip(mediaType: string, params: string, b: seq<byte>)
    requires ',' !in mediaType && ':' !in mediaType && ';' !in mediaType
    requires ',' !in params
    requires params == "" || params[0] == ';'
    ensures DecodeDataUrl("data:" + mediaType + params + "," + Encode(b))
      == Ok(Blob(BlobType(mediaType), b))
  {
    var header := "data:" + mediaType + params;
    var url := "data:" + mediaType + params + "," + Encode(b);
    assert url == header + [','] + Encode(b);
    assert ',' !in header by {
      assert forall i :: 0 <= i < |header| ==>
        header[i] in "data:" || header[i] in mediaType || header[i] in params;
    }
    EncodingHasNoSeparators(b);
    UrlParts(header, Encode(b));
    MimeOfHeader(mediaType, params);
    EncodeDecodeRoundTrip(b);
    assert PayloadArgument(url) == Encode(b) && Header(url) == header;
    assert Atob(PayloadArgument(url)) == Some(BinaryString(b));
    assert MimeString(url) == Some(mediaType);
    CharCodesOfBinaryString(b);
  }

  /** A type already in lower-case printable ASCII is stored unchanged. */
  lemma BlobTypeKeepsLowerCase(t: string)
    requires forall i :: 0 <= i < |t| ==> IsPrintableAscii(t[i]) && !('A' <= t[i] <= 'Z')
    ensures BlobType(t) == t
  {
  }

  /** "image/png" is already in the form the Blob constructor stores. */
  lemma PngTypeKept()
    ensures BlobType("image/png") == "image/png"
  {
    var m := "image/png";
    assert m == ['i', 'm', 'a', 'g', 'e', '/', 'p', 'n', 'g'];
    BlobTypeKeepsLowerCase(m);
  }

  /** The canvas writes PNG data URLs; their type survives as "image/png". */
  lemma PngRoundTrip(b: seq<byte>)
    ensures DecodeDataUrl("data:" + "image/png" + ";base64" + "," + Encode(b)) == Ok(Blob("image/png", b))
  {
    var m := "image/png";
    assert ',' !in m && ':' !in m && ';' !in m;
    assert ',' !in ";base64";
    RoundTrip(m, ";base64", b);
    PngTypeKept();
  }

  /** A canvas without pixels yields "data:,", which decodes without error
      to an empty Blob with an empty type. */
  lemma EmptyCanvasUrl()
    ensures DecodeDataUrl("data:,") == Ok(Blob("", []))
  {
    RoundTrip("", "", []);
    assert "data:" + "" + "" + "," + Encode([]) == "data:,";
  }

  /** A data URL that is not base64 at all ("hello", five characters) is
      still handed to `atob`, which refuses it. */
  lemma PlainTextUrlFails()
    ensures DecodeDataUrl("data:text/plain,hello") == Err(InvalidCharacterError)
  {
    var header, payload := "data:text/plain", "hello";
    assert ',' !in header && ',' !in payload;
    assert "data:text/plain,hello" == header + [','] + payload;
    UrlParts(header, payload);
    StripNoWhitespace(payload);
  }

  /** Storing a type that the constructor has already normalised changes nothing. */
  lemma BlobTypeIdempotent(t: string)
    ensures BlobType(BlobType(t)) == BlobType(t)
    ensures forall i :: 0 <= i < |BlobType(t)| ==> IsPrintableAscii(BlobType(t)[i])
  {
    LowerCaseFolds(t);
  }
}
