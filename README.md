# Pix Debugger decoders in Dafny

This project models the three string decoders of the Pix Debugger page script, `assets/script.js`:

- **`decodeTLV`** reads a Pix "copia e cola" (BR Code) payload. The payload uses the ID / Length / Value data objects of the EMV QR Code Specification for Payment Systems, Merchant-Presented Mode (section 3.2). Each record is a two-character tag, a two-character decimal length, and that many characters of value. The result maps each tag to its value, and a later duplicate tag overwrites an earlier one. `Tlv.DecodeTlv` keeps the source's cursor loop. It is proved equal to `Tlv.TlvMap`, a specification built from the records the loop visits (`Tlv.FieldsFrom`) folded into a map (`Tlv.Apply`).
- **`getPixUrl`** finds the payload URL. It scans the Merchant Account Information templates "26" to "51" (section 4.5 of the same EMV specification) in ascending order. It returns the first non-empty nested sub-field "25", the URL slot of the Pix BR Code. `PixUrl.GetPixUrl` keeps the source's bounded loop with its early return. It is proved equal to `PixUrl.PixUrlOf`, which is defined through the generic first-match search `PixUrl.FirstFrom`.
- **`decodeJwt`** reads a JWS Compact Serialization (section 7.1 of RFC 7515; a JWT per section 3 of RFC 7519). It splits the input on ".". Unless there are exactly three pieces, it returns null. Otherwise it rewrites the first two pieces from the base64url alphabet (section 5 of RFC 4648) to the standard one (section 4 of RFC 4648), then passes them through `atob` and `JSON.parse`. The third piece is returned as the signature. `Jwt.DecodeJwt` is a pure function, as the source is.

The JavaScript built-ins these decoders rely on have their ECMAScript behaviour written out in `JsString`:

- `substring` clamps its bounds, swaps them when they are out of order, and reads `NaN` as 0.
- `parseInt(_, 10)` skips leading white space, reads an optional sign and then the longest run of digits. An input with no digits gives `NaN`.
- `String(n).padStart(2, "0")` gives the two-character decimal form.

A string here is a sequence of Unicode scalar values (`seq<char>`). For text inside the Basic Multilingual Plane this is exactly the JavaScript sequence of UTF-16 code units, one `char` per code unit. JavaScript `null` and `NaN` are `None` of `Option`. `atob` and `JSON.parse` are function parameters that return `None` where the built-in throws. The parsed JSON value is the type parameter `J` of `Jwt`.

Files: `wrappers.dfy` (Option), `js_string.dfy`, `tlv.dfy`, `pix_url.dfy`, `jwt.dfy`.

## Model

| member | source | states |
|---|---|---|
| JsString.Substring | assets/script.js:143-145 | in-range ordered bounds give the slice between them; reversed bounds give the slice with the bounds swapped; the result is never longer than the string |
| JsString.SubstringLength | assets/script.js:145 | for 0 <= start <= end the result has length min(end - start, max(0, \|s\| - start)) and is the slice clamped at the end of the string |
| JsString.ParseInt | assets/script.js:144 | the empty field is NaN; a field that starts with a digit reads as the value of its leading digit run |
| JsString.ParseIntDigitLed | assets/script.js:144 | a field that starts with a digit parses to the non-negative value of its leading digit run |
| JsString.ParseIntNaN | assets/script.js:144 | an empty field, or one that starts with neither a digit, white space nor a sign, is NaN |
| JsString.ParseIntTwoChars | assets/script.js:144 | a length field of two characters is NaN or a number in -9 .. 99 |
| JsString.ParseIntStopsAtNonDigit | assets/script.js:144 | "5a" and "5" both read as 5 and "a5" is NaN: parsing stops at the first non-digit |
| JsString.PadStart2 | assets/script.js:160 | the padded tag of an ID below 100 has exactly two characters, both decimal digits |
| JsString.PadStart2RoundTrip | assets/script.js:160 | parseInt reads back exactly the number that padStart wrote, for every n in 0 .. 99 |
| JsString.PadStart2Injective | assets/script.js:160 | different IDs give different tags |
| Tlv.DecodeTlv | assets/script.js:138-152 | the loop's map is the map of the records visited from cursor 0, folded in order; the empty string gives the empty map |
| Tlv.StepAt | assets/script.js:143-148 | a pass whose length field is NaN records the prefix s[0 .. min(i + 4, \|s\|)] and ends the loop |
| Tlv.StepAdvances | assets/script.js:143-148 | a digit-led length field parses to len in 0 .. 99; the cursor moves to i + 4 + len >= i + 4; the tag is s[i..i+2]; the value is the next len characters cut short at the end of input, of length min(len, max(0, \|s\| - (i + 4))) |
| Tlv.NaNLengthEndsLoop | assets/script.js:144-148 | a NaN length records tag -> s[0 .. min(i + 4, \|s\|)] and is the last record the loop reads |
| Tlv.NegativeLengthStalls | assets/script.js:144-148 | on "00-4" the length -4 leaves the cursor at 0, so that input is outside Decodable |
| Tlv.StepUnfolds | assets/script.js:142-149 | the records from a numeric pass exist exactly when the cursor moves forward and the records from the new cursor exist; then the pass's record comes first |
| Tlv.ApplyAppend | assets/script.js:147 | writing a + b into a map is writing a and then b |
| Tlv.ApplyUntouched | assets/script.js:147 | records with other tags neither add nor change an entry |
| Tlv.ApplyKeys | assets/script.js:147 | a tag is in the result exactly when it was in the starting map or some record carries it |
| Tlv.LastWins | assets/script.js:147 | a tag maps to the value of its last record: later duplicates overwrite earlier ones |
| Tlv.RecordAt | assets/script.js:143-148 | at the end of any prefix, one pass reads a well-formed record exactly and moves the cursor past it |
| Tlv.FieldsOfEncoding | assets/script.js:142-149 | from the end of any prefix, the loop reads back exactly the encoded sequence of records |
| Tlv.RoundTrip | assets/script.js:142-149 | the encoding of well-formed records is decodable, and decodes to the map built by inserting the records in order |
| Tlv.SingleRecord | assets/script.js:142-149 | one record tag + two-digit length + value decodes to the one-entry map |
| Tlv.TwoRecords | assets/script.js:142-149 | two records decode to the map holding both, the second winning on equal tags |
| PixUrl.FirstFrom | assets/script.js:159-169 | the result is the first ID from t up to 51 where the test holds, or 52 when none does; no ID before it passes the test |
| PixUrl.GetPixUrl | assets/script.js:154-172 | the loop returns the first-match URL of the scan specification; null or "" gives null before any decoding |
| PixUrl.PixUrlIsFirstMatch | assets/script.js:159-167 | a returned URL u is non-empty and is the nested "25" of a template t in 26 .. 51 whose root value is non-empty; no lower template yields a non-empty "25" |
| PixUrl.PixUrlNullIff | assets/script.js:155-171 | null comes back exactly when the payload is falsy or no template in 26 .. 51 yields a non-empty nested "25" |
| PixUrl.FirstTemplateWins | assets/script.js:159-167 | a root holding only template "26" with a non-empty "25" gives that URL |
| PixUrl.TemplateUrlFound | assets/script.js:154-172 | the payload "26" + length + ("25" + length + url) gives url |
| PixUrl.SecondTemplateWins | assets/script.js:159-167 | when template "26" has no non-empty "25" and template "27" has url at "25", the scan passes "26" and returns url |
| PixUrl.SkippedTemplate | assets/script.js:159-169 | a template "26" whose record is another tag, or an empty "25", is skipped, and the "25" of template "27" is returned |
| Jwt.Split | assets/script.js:191 | one piece more than there are separators, and no piece contains the separator |
| Jwt.SplitThenJoin | assets/script.js:191 | joining the pieces with the separator restores the input |
| Jwt.JoinThree | assets/script.js:191 | three pieces join as a + "." + (b + "." + c) |
| Jwt.SplitJoin | assets/script.js:191 | splitting the join of separator-free pieces gives the pieces back |
| Jwt.SplitPiece | assets/script.js:191 | a separator-free prefix joins the first piece of what follows it |
| Jwt.ReplaceAll | assets/script.js:195 | length is kept; each occurrence of the character is replaced and every other character is unchanged |
| Jwt.ToStandardAlphabet | assets/script.js:195 | length is kept; "-" becomes "+", "_" becomes "/", every other character is unchanged, and no "-" or "_" is left |
| Jwt.AlphabetRoundTrip | assets/script.js:195 | standard-alphabet text rewritten to base64url and back is unchanged |
| Jwt.DecodeSegment | assets/script.js:194-195 | a segment decodes exactly when atob accepts its standard-alphabet form and JSON.parse accepts the decoded text |
| Jwt.DecodeJwt | assets/script.js:190-202 | the result is "not three parts" (null) exactly when the input does not hold exactly two dots; a decoded token's signature is dot-free and ends the input after a dot |
| Jwt.DecodeJwtSegments | assets/script.js:191-200 | on header.payload.signature with dot-free pieces, the header is decoded first, then the payload; a failure in either is reported for that segment and never as a partly filled record; the signature is returned verbatim |

## Left out

- The page's DOM setup, paste, drag-and-drop, click and change handlers and the process-button flow (assets/script.js:1-119) are not modelled: they are UI event plumbing.
- `handleFile` with `FileReader` and `decodeQRFromImage` with a canvas and the `jsQR` library (assets/script.js:64-95, 121-136) are not modelled: they are browser I/O and a foreign library.
- `fetchJwtContent` (assets/script.js:174-188) is not modelled: it is an asynchronous network fetch with console logging.
- Syntax highlighting of the output with `hljs` (assets/script.js:111-112) is not modelled.
- The internals of `atob` and `JSON.parse` are not modelled. They are parameters of `Jwt.DecodeJwt`, and a throw is `None`.
- The source lets an exception from `atob` or `JSON.parse` propagate out of `decodeJwt`. Here it becomes the value `Malformed(segment)`, which is distinct from the null of a wrong segment count. The order of evaluation (header before payload) is kept.
- `decodeJwt(null)`, which the page reaches when the fetch fails, throws a TypeError in the source. It is not modelled: the input of `Jwt.DecodeJwt` is a string.
- Tlv.DecodeTlv: requires `Decodable`, so it leaves out inputs with a length field of -4 or below. For those the source's cursor stands still or moves back, and its loop may not end (`Tlv.NegativeLengthStalls`). Lengths -1 to -3 still move the cursor forward and are modelled, as are NaN lengths.
- PixUrl.GetPixUrl: requires `PayloadDecodable`, the same exclusion for the root payload and for every non-empty template in 26 .. 51, including templates after the first match, which the source never decodes.
- Signature verification and the CRC of tag "63" are not modelled: the source performs neither.
- Strings are sequences of Unicode scalar values, and a lone UTF-16 surrogate code unit is not a `char`. Inputs holding characters outside the Basic Multilingual Plane are not modelled: JavaScript counts such a character as two code units in `length`, `substring` and so in the TLV length field, and the model has no code-unit form for it.
