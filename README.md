# Form-recognizer OCR skill: reader and batch envelope

This project models the live logic of the OCR custom skill in
`latestocr/__init__.py`. A request holds a list of records. Each record's
`data` carries a base64-encoded document `Url` and a `SasToken`.

`read` takes one record and rebuilds the document URL:

1. It repairs the base64 text according to `len(Url) % 4`:
   - remainder 0: the text is used as it is;
   - remainder 1: the last character is dropped;
   - remainder 2: one `=` is appended;
   - remainder 3: two `=` are appended.
2. It decodes the text as base64, then the bytes as UTF-8.
3. For remainders 0 and 3 it drops the last decoded character.
4. It appends the `SasToken`, with no separator.

`read` then asks the OCR service (model `prebuilt-read`) for the document's
text. Every exception along the way becomes an error record,
`{recordId, errors: [{message: "Error: " + str(error)}]}`.

`compose_response` does three things:

1. It looks up the request's `values`.
2. It looks up the `FR_ENDPOINT` and `FR_ENDPOINT_KEY` settings.
3. It runs `read` on every record in order, appending each output record
   to the response.

A missing key outside `read` escapes as a `KeyError`.

The model has five modules:

- `Prelude`: `Option`, `Result`, octets, Python's `[:-1]` and `%d`/`%02x`
  formatting.
- `Base64`: the base64 decoder `base64.b64decode` uses, which is CPython's
  non-strict `binascii.a2b_base64`:
  - characters outside the alphabet are skipped;
  - a `=` before the third character of a quantum is ignored;
  - decoding stops at the pad that completes a quantum;
  - an unfinished quantum raises one of the two `binascii.Error` messages.

  It also has the canonical encoder of section 4 of RFC 4648 with its
  round trip.
- `Utf8`: strict UTF-8 decoding with CPython's error ranges and messages,
  and the encoder, with both round trips.
- `Reader`: `read`, as total functions over a record whose keys may be
  absent, with the OCR service as a function parameter.
- `Batch`: `compose_response`, as a method whose `for` loop appends to the
  output list. It is proved equal to a specification function, and
  lemmas give that function's shape.

The model shows that a canonically padded `Url` always has a length that
is a multiple of four. So the remainder-0 branch runs, and the URL loses
its last character: `"dGVzdC11cmw="` ("test-url") yields
`"test-ur?sas=token"`, whatever the URL.

A producer that appends one throw-away character before encoding, or one
stray character after it, gets its URL through intact. An unpadded encoding of length 2 (mod 4) is always
rejected, because the remainder-2 repair leaves it one pad short.

## Model

| member | source | states |
|---|---|---|
| Reader.RepairFor | latestocr/__init__.py:121-128 | exactly one of the four repairs applies to every length, each iff its `len % 4` value |
| Reader.Repaired | latestocr/__init__.py:121-128 | branches 0 and 1 hand the decoder a prefix whose length is a multiple of four, shorter by `len % 4`; branch 2 appends `=` (length 3 mod 4); branch 3 appends `==` (length 1 mod 4) |
| Reader.DecodedText | latestocr/__init__.py:122-128 | a decoded text exists only if the repaired string passed the ASCII check of `b64decode` |
| Reader.DocumentUrl | latestocr/__init__.py:121-128 | without `Url` the lookup of `Url` fails first; a built URL needs both keys and a `Url` that decodes, and it always ends with the token verbatim; a missing-key failure means one of the two keys is absent |
| Reader.Describe | latestocr/__init__.py:139 | `str(error)` per exception: a `KeyError` is the key between quotes; a `binascii.Error` is "Incorrect padding" or the excess-data-character text; a `UnicodeDecodeError` starts with the codec's "'utf-8' codec can't decode byte"; an OCR failure is its own text |
| Reader.Quoted | latestocr/__init__.py:139 | `str` of a `KeyError` is two characters longer than the key: the key, with a single quote at each end |
| Reader.Attempt | latestocr/__init__.py:121-131 | the OCR service is asked, with endpoint, key, "prebuilt-read" and the built URL, only once the URL is built; the text is its result; a URL failure is passed on unchanged and an OCR failure becomes `OcrFailed` |
| Reader.Read | latestocr/__init__.py:119-141 | always a record with the given `recordId`; `text` holds the OCR result iff the URL can be built and the OCR call succeeds; otherwise exactly one error entry whose message is "Error: " followed by `str` of the exception |
| Reader.TrimRule | latestocr/__init__.py:122-128 | once decoded, branches 0 and 3 drop exactly the last decoded character and branches 1 and 2 keep it; the token ends the URL verbatim |
| Reader.MissingUrlRecord | latestocr/__init__.py:121-140 | a record without `Url` becomes the record `{recordId, errors: [{message: "Error: 'Url'"}]}`, whatever the token and the OCR service |
| Reader.MissingTokenRecord | latestocr/__init__.py:122-140 | any `Url` that decodes, without `SasToken`, becomes the record with message "Error: 'SasToken'": the token is looked up after decoding |
| Reader.BadUrlBeforeToken | latestocr/__init__.py:125-140 | a `Url` of data characters of length 2 (mod 4) without a token gives "Error: Incorrect padding": the decoding error is reported before the missing token |
| Reader.EncodingIsAscii | latestocr/__init__.py:122 | every canonical base64 encoding passes the ASCII check |
| Reader.DecodesCanonical | latestocr/__init__.py:122 | the canonical encoding of a URL's UTF-8 bytes decodes back to that URL |
| Reader.CanonicalLosesLastChar | latestocr/__init__.py:121-122 | for the canonical encoding of any `u`, the document URL is `u` without its last character, followed by the token |
| Reader.DelimiterRecovered | latestocr/__init__.py:121-122 | a URL encoded with one extra trailing character is recovered whole |
| Reader.StrayCharacterDropped | latestocr/__init__.py:123-124 | one stray character after a canonical encoding is dropped by branch 1, and the URL is kept whole |
| Reader.StrayRepaired | latestocr/__init__.py:123-124 | branch 1 strips exactly the character after a whole number of quanta, and it does not trim the decoded text |
| Reader.OnePadBranchRejects | latestocr/__init__.py:125-126 | for data characters of length 2 mod 4, branch 2 always fails with "Incorrect padding", whatever the token |
| Reader.TwoPadBranchAccepts | latestocr/__init__.py:127-128 | branch 3's over-padding decodes exactly as the correct single pad does, and it succeeds |
| Reader.UnpaddedProducer | latestocr/__init__.py:121-128 | an encoder that omits padding: one octet past a group fails, two octets or whole groups give the URL minus its last character |
| Reader.UnpaddedTwoPads | latestocr/__init__.py:127-128 | two octets past a group: branch 3 passes the ASCII check and decodes to the original bytes |
| Reader.TestUrlExample | tests/test_metrics.py:52-53 | `"dGVzdC11cmw="` with `"?sas=token"` gives the document URL `"test-ur?sas=token"` |
| Reader.TestUrlEncoding | tests/test_metrics.py:52 | `"dGVzdC11cmw="` is the canonical encoding of "test-url" |
| Reader.MockUrlExample | test_performance.py:41-42 | `"bW9ja191cmw="` with `"?sas=mock"` gives `"mock_ur?sas=mock"` |
| Reader.MockUrlEncoding | test_performance.py:41 | `"bW9ja191cmw="` is the canonical encoding of "mock_url" |
| Reader.Utf8Ascii | tests/test_real_azure.py:43 | ASCII text encodes to UTF-8 one byte per character, the byte being the code point |
| Batch.ComposeResponse | latestocr/__init__.py:102-117 | the lookups of `values`, `FR_ENDPOINT` and `FR_ENDPOINT_KEY`, in that order, followed by the loop, give exactly the specification `Envelope`: the response, or the `KeyError` that escapes |
| Batch.ReadRecords | latestocr/__init__.py:113-115 | the `for` loop, appending each record `read` returns, ends with exactly the specification `ReadAll` for `read` bound to the batch's endpoint, key and OCR service |
| Batch.ReadAll | latestocr/__init__.py:113-115 | the loop's collected records: as many as there are inputs when it completes; only `recordId` or `data` can be the `KeyError` that stops it |
| Batch.Envelope | latestocr/__init__.py:102-117 | a response needs `values` and both settings, and it has one record per input; the only `KeyError`s that escape are for `values`, `FR_ENDPOINT`, `FR_ENDPOINT_KEY`, `recordId` and `data` |
| Batch.FailureStays | latestocr/__init__.py:113-115 | once a record's lookup fails, the later records do not affect the outcome |
| Batch.ReadAllPointwise | latestocr/__init__.py:113-115 | the loop completes iff every record has both keys; then output `i` is the record read from input `i` alone, one per input, in order |
| Batch.FirstDefectRead | latestocr/__init__.py:113-114 | the escaping `KeyError` names the missing key of the first defective record |
| Batch.ResponseShape | latestocr/__init__.py:102-117 | a response exists iff `values` and both settings exist and every record is well formed; it has one entry per record, in order, with the record's `recordId`, equal to `read` of that record |
| Batch.FirstDefect | latestocr/__init__.py:103-114 | the escaping `KeyError` is that of the first defective record once `values` and both settings exist |
| Batch.Isolation | latestocr/__init__.py:113-115 | replacing one well-formed record changes only that record's output entry |
| Batch.RequestCountExample | tests/test_metrics.py:81-113 | three records give a response of three entries, in the input order of their ids, whatever the OCR service returns |
| Base64.Padding | latestocr/__init__.py:122 | the canonical padding has `(3 - n mod 3) mod 3` characters |
| Base64.Encode | latestocr/__init__.py:122 | the canonical encoding has `4 * ceil(n / 3)` characters, a multiple of four |
| Base64.Feed | latestocr/__init__.py:122 | a data character advances the quantum position by one (wrapping after the fourth), resets the pad count and appends one octet except at the start of a quantum, keeping the octets written so far |
| Base64.Finish | latestocr/__init__.py:122 | at the end of input the decoder succeeds iff it stands at a quantum boundary, and then returns the octets written |
| Base64.Run | latestocr/__init__.py:122 | a successful decoding extends the octets already written and adds at most one octet per remaining character |
| Base64.Decode | latestocr/__init__.py:122 | `b64decode` of a string yields at most as many octets as it has characters |
| Base64.Message | latestocr/__init__.py:139 | `str` of the `binascii.Error`: exactly "Incorrect padding" for the padding error, and otherwise the text starting "Invalid base64-encoded string: number of data characters (" |
| Base64.UnpaddedLength | latestocr/__init__.py:122 | without padding the encoding has `4 * (n div 3)` characters, plus 0, 2 or 3 for the final group |
| Base64.UnpaddedRemainder | latestocr/__init__.py:125-128 | without padding the length mod 4 is 0, 2 or 3 for 0, 1 or 2 octets in the final group |
| Base64.RunData | latestocr/__init__.py:122 | data characters are consumed in order, independent of what follows |
| Base64.FeedAllPosition | latestocr/__init__.py:122 | each data character advances the quantum position by one, modulo 4, and resets the pad count |
| Base64.OnePadShort | latestocr/__init__.py:126 | data characters of length 2 mod 4 followed by one `=` raise "Incorrect padding" |
| Base64.OverPadded | latestocr/__init__.py:128 | data characters of length 3 mod 4 followed by `==` decode as with `=`, successfully |
| Base64.FeedGroup | latestocr/__init__.py:122 | the sextets of one group rebuild its octets and leave the decoder at the matching quantum position |
| Base64.FeedUnpadded | latestocr/__init__.py:122 | the data characters of an encoding rebuild every octet |
| Base64.PadsAccepted | latestocr/__init__.py:122 | the canonical padding ends the open quantum successfully |
| Base64.DecodeEncode | latestocr/__init__.py:122 | round trip: decoding the canonical encoding gives back the octets |
| Utf8.Scalar | latestocr/__init__.py:122 | the code point of a well-formed sequence lies in the range for its length, never a surrogate |
| Utf8.First | latestocr/__init__.py:122 | a decoding step consumes between 1 and the remaining bytes, and a character read takes the lead byte's sequence length |
| Utf8.DecodeFrom | latestocr/__init__.py:122 | an error's byte range lies inside the input and is never empty |
| Utf8.Decode | latestocr/__init__.py:122 | `decode('utf-8')` yields at most one character per byte; an error names a non-empty range of positions inside the input |
| Utf8.Message | latestocr/__init__.py:139 | `str(UnicodeDecodeError)` names the codec, reads "byte 0x.." exactly when the range is one byte, and ends with the reason |
| Utf8.FirstStops | latestocr/__init__.py:122 | an invalid start byte covers one byte; an end of data covers the rest of the input; an invalid continuation covers the valid prefix only |
| Utf8.ErrorReasons | latestocr/__init__.py:122 | the same three ranges, stated for the error the whole decoder reports |
| Utf8.DecodeEncode | latestocr/__init__.py:122 | round trip: decoding the encoding of a string gives back the string |
| Utf8.EncodeDecodeFrom | latestocr/__init__.py:122 | round trip: bytes that decode are the encoding of their text |
| Utf8.DecodeOk | latestocr/__init__.py:122 | the decoder succeeds with text `s` iff the bytes are exactly the encoding of `s` |
| Utf8.ErrorAfterText | latestocr/__init__.py:122 | after valid text, a bad sequence is reported at the text's byte length with its reason |

## Left out

- The Azure ML pipeline set-up is module-level scaffolding whose results are never used; it also refers to the unbound name `azureml`. That covers lines 80-99 and the `pipeline.run` call in `compose_response` (lines 110-111).
- Lines 1-71 of `latestocr/__init__.py` are a string literal. The HTTP handler `main` written inside it is not code, so it is not part of this model.
- The OCR client is abstracted:
  - `DocumentAnalysisClient`, `AzureKeyCredential` and the poller become a function parameter of type `OcrRequest -> Result<string, string>`, because they are a network call into an SDK.
  - Its failures are represented only by the text of `str(error)`.
- `os.environ` is modelled as `Batch.Settings`, a pair of optional strings.
- `json.loads` and `json.dumps(..., ensure_ascii=False)` are library serialisation. The request and response are modelled as datatypes.
- JSON values of the wrong types are not modelled: `recordId`, `Url` and `SasToken` are assumed to be strings and `data` an object. In the source, a wrong type inside `read` would raise a `TypeError`, which `read` catches.
- As written, `compose_response` raises `NameError` on every call at line 110, before the loop runs, because `azureml` is never bound; lines 84 and 92 already fail when the module is imported. Every `Batch` property describes `compose_response` with lines 110-111 removed.
- Dafny strings hold Unicode scalar values only. A Python `str` from `json.loads` can hold a lone surrogate, such as a `Url` whose last character is `\udc00` (branch 1 strips it and decodes the rest); such inputs lie outside the model.
- The exact text of `str(KeyError)` escaping `compose_response` is not modelled; the model carries the missing key's name.
- `tests/metrics_collector.py` and the test files' timing, mocking and printing are test scaffolding. Only their inputs appear, as worked examples.
- Reader.Read: for a failed OCR call the model does not constrain `str(error)`, because that text comes from the SDK.
- Utf8.ErrorAfterText: the model does not prove the converse, that every decoding error lies after a valid prefix. It states the forward direction only.
