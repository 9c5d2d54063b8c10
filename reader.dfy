/**
 * The record reader of the OCR custom skill: one input record's `data`
 * object holds a base64-encoded document URL (`Url`) and a SAS token
 * (`SasToken`). The reader repairs the encoding's padding by the length of
 * `Url` modulo 4, decodes it, trims the decoded text in two of the four
 * cases, appends the token, and hands the resulting URL to the OCR service
 * with the "prebuilt-read" model. Every failure on the way, including a
 * missing key, becomes an error record; the reader itself never fails.
 */
module Reader {
  import opened Prelude
  import Base64
  import Utf8

  /** The two keys of a record's `data` object; a key may be absent. */
  datatype Fields = Fields(url: Option<string>, sasToken: Option<string>)

  /** The four repairs, one per value of `len(Url) % 4`. */
  datatype Repair = AsIs | DropLastEncoded | AppendOnePad | AppendTwoPads

  /** Exactly one repair applies to every length. */
  function RepairFor(n: nat): (r: Repair)
    ensures r == AsIs <==> n % 4 == 0
    ensures r == DropLastEncoded <==> n % 4 == 1
    ensures r == AppendOnePad <==> n % 4 == 2
    ensures r == AppendTwoPads <==> n % 4 == 3
  {
    match n % 4
    case 0 => AsIs
    case 1 => DropLastEncoded
    case 2 => AppendOnePad
    case _ => AppendTwoPads
  }

  /**
   * The string handed to the base64 decoder. Lengths 0 and 1 (mod 4) give
   * a prefix of `url` whose length is a multiple of four; lengths 2 and 3
   * keep `url` and add '=': one pad short of a quantum for length 2, one pad
   * too many for length 3.
   */
  function Repaired(url: string): (s: string)
    ensures |url| % 4 <= 1 ==> |s| % 4 == 0 && s <= url && |url| - |s| == |url| % 4
    ensures |url| % 4 == 2 ==> |s| % 4 == 3 && s == url + "="
    ensures |url| % 4 == 3 ==> |s| % 4 == 1 && s == url + "=="
  {
    match RepairFor(|url|)
    case AsIs => url
    case DropLastEncoded => url[..|url| - 1]
    case AppendOnePad => url + "="
    case AppendTwoPads => url + "=="
  }

  /** The branches that slice the decoded text with `[:-1]`. */
  predicate TrimsDecoded(n: nat)
  {
    RepairFor(n) == AsIs || RepairFor(n) == AppendTwoPads
  }

  /** A `str` that `str.encode('ascii')` accepts. */
  predicate IsAscii(s: string)
  {
    forall i :: 0 <= i < |s| ==> (s[i] as int) < 128
  }

  /** The exception `read` catches, by kind. */
  datatype Failure =
    | MissingKey(key: string)                 // KeyError on `data`
    | NonAscii                                // ValueError from base64's argument check
    | BadBase64(b64: Base64.DecodeError)      // binascii.Error
    | BadUtf8(utf8: Utf8.DecodeError)         // UnicodeDecodeError
    | OcrFailed(description: string)          // whatever the OCR client raised, as `str(error)`

  /** `str(error)` for each failure. */
  function Describe(f: Failure): (s: string)
    ensures f.MissingKey? ==> |s| == |f.key| + 2 && s[0] == s[|s| - 1] == '\'' && s[1..|s| - 1] == f.key
    ensures f.BadBase64? ==>
      if f.b64.IncorrectPadding? then s == "Incorrect padding"
      else "Invalid base64-encoded string: number of data characters (" <= s
    ensures f.BadUtf8? ==> "'utf-8' codec can't decode byte" <= s
    ensures f.OcrFailed? ==> s == f.description
  {
    match f
    case MissingKey(key) => Quoted(key)
    case NonAscii => "string argument should contain only ASCII characters"
    case BadBase64(e) => Base64.Message(e)
    case BadUtf8(e) => Utf8.Message(e)
    case OcrFailed(description) => description
  }

  /** `str()` of a `KeyError`: the key's `repr`, here the key between single quotes. */
  function Quoted(key: string): (s: string)
    ensures |s| == |key| + 2 && s[0] == s[|s| - 1] == '\'' && s[1..|s| - 1] == key
  {
    var s := "'" + key + "'";
    assert s[1..|s| - 1] == key;
    s
  }

  /** `base64.b64decode(...).decode('utf-8')` of the repaired `Url`, before any trimming. */
  function DecodedText(url: string): (r: Result<string, Failure>)
    ensures r.Success? ==> IsAscii(Repaired(url))
  {
    var encoded := Repaired(url);
    if !IsAscii(encoded) then Failure(NonAscii)
    else match Base64.Decode(encoded)
      case Failure(e) => Failure(BadBase64(e))
      case Success(bytes) =>
        match Utf8.Decode(bytes)
        case Failure(e) => Failure(BadUtf8(e))
        case Success(text) => Success(text)
  }

  /**
   * `docUrl`, or the exception that stops its evaluation. Python evaluates
   * `data["Url"]` first, the decoding next and `data["SasToken"]` last.
   */
  function DocumentUrl(data: Fields): (r: Result<string, Failure>)
    ensures data.url.None? ==> r == Failure(MissingKey("Url"))
    ensures r.Success? ==> data.url.Some? && data.sasToken.Some? && DecodedText(data.url.value).Success?
    ensures r.Success? ==>
      |data.sasToken.value| <= |r.value| && r.value[|r.value| - |data.sasToken.value|..] == data.sasToken.value
    ensures r.Failure? && r.error.MissingKey? ==> data.url.None? || data.sasToken.None?
  {
    match data.url
    case None => Failure(MissingKey("Url"))
    case Some(url) =>
      match DecodedText(url)
      case Failure(f) => Failure(f)
      case Success(text) =>
        var kept := if TrimsDecoded(|url|) then DropLast(text) else text;
        match data.sasToken
        case None => Failure(MissingKey("SasToken"))
        case Some(sas) => Success(kept + sas)
  }

  /** The model the reader asks the OCR service for. */
  const ModelId := "prebuilt-read"

  /** What the OCR client is given: the service endpoint, its key, the model and the document URL. */
  datatype OcrRequest = OcrRequest(endpoint: string, key: string, modelId: string, documentUrl: string)

  /** The OCR service: the extracted text (`result.content`) or `str` of what it raised. */
  type Ocr = OcrRequest -> Result<string, string>

  /** One entry of an error record's `errors` list. */
  datatype ErrorEntry = ErrorEntry(message: string)

  /** An output record: `{recordId, data: {text}}` or `{recordId, errors: [...]}`. */
  datatype OutputRecord =
    | Extracted(recordId: string, text: string)
    | Failed(recordId: string, errors: seq<ErrorEntry>)

  /** The OCR text for `data`, or the failure that `read`'s `except` catches. */
  function Attempt(endpoint: string, key: string, data: Fields, ocr: Ocr): (r: Result<string, Failure>)
    ensures r.Success? <==>
      DocumentUrl(data).Success? && ocr(OcrRequest(endpoint, key, ModelId, DocumentUrl(data).value)).Success?
    ensures r.Success? ==> r.value == ocr(OcrRequest(endpoint, key, ModelId, DocumentUrl(data).value)).value
    ensures DocumentUrl(data).Failure? ==> r == Failure(DocumentUrl(data).error)
    ensures r.Failure? && DocumentUrl(data).Success? ==>
      r.error == OcrFailed(ocr(OcrRequest(endpoint, key, ModelId, DocumentUrl(data).value)).error)
  {
    match DocumentUrl(data)
    case Failure(f) => Failure(f)
    case Success(docUrl) =>
      match ocr(OcrRequest(endpoint, key, ModelId, docUrl))
      case Failure(description) => Failure(OcrFailed(description))
      case Success(text) => Success(text)
  }

  /**
   * `read`: always a record for `recordId`; it holds the OCR text exactly
   * when the URL could be built and the OCR call succeeded, and otherwise a
   * single error entry whose message is "Error: " followed by the exception.
   */
  function Read(endpoint: string, key: string, recordId: string, data: Fields, ocr: Ocr): (r: OutputRecord)
    ensures r.recordId == recordId
    ensures r.Extracted? <==>
      DocumentUrl(data).Success? && ocr(OcrRequest(endpoint, key, ModelId, DocumentUrl(data).value)).Success?
    ensures r.Extracted? ==> r.text == ocr(OcrRequest(endpoint, key, ModelId, DocumentUrl(data).value)).value
    ensures r.Failed? ==> |r.errors| == 1 && "Error: " <= r.errors[0].message
    ensures r.Failed? && DocumentUrl(data).Failure? ==>
      r.errors[0].message == "Error: " + Describe(DocumentUrl(data).error)
    ensures r.Failed? && DocumentUrl(data).Success? ==>
      r.errors[0].message == "Error: " + ocr(OcrRequest(endpoint, key, ModelId, DocumentUrl(data).value)).error
  {
    match Attempt(endpoint, key, data, ocr)
    case Success(text) => Extracted(recordId, text)
    case Failure(f) => Failed(recordId, [ErrorEntry("Error: " + Describe(f))])
  }

  // ---------------------------------------------------------------------
  // The trimming rule and the lookups' order.

  /**
   * Once the text is decoded, branches 0 and 3 drop exactly its last
   * character and branches 1 and 2 keep it whole; the token follows
   * verbatim, with no separator.
   */
  lemma TrimRule(url: string, sas: string, text: string)
    requires DecodedText(url) == Success(text)
    ensures var r := DocumentUrl(Fields(Some(url), Some(sas)));
      && r.Success?
      && (TrimsDecoded(|url|) && |text| > 0 ==> r.value == text[..|text| - 1] + sas)
      && (TrimsDecoded(|url|) && |text| == 0 ==> r.value == sas)
      && (!TrimsDecoded(|url|) ==> r.value == text + sas)
      && r.value[|r.value| - |sas|..] == sas
  {
    var r := DocumentUrl(Fields(Some(url), Some(sas)));
    var kept := if TrimsDecoded(|url|) then DropLast(text) else text;
    assert r.value == kept + sas;
    assert (kept + sas)[|kept + sas| - |sas|..] == sas;
  }

  /** The decoding stages of `DecodedText`, one at a time. */
  lemma DecodedTextOf(url: string, bytes: seq<byte>, text: string)
    requires IsAscii(Repaired(url))
    requires Base64.Decode(Repaired(url)) == Success(bytes)
    requires Utf8.Decode(bytes) == Success(text)
    ensures DecodedText(url) == Success(text)
  {
  }

  /** The document URL once the text is decoded, by branch. */
  lemma DocumentUrlOf(url: string, sas: string, text: string)
    requires DecodedText(url) == Success(text)
    ensures DocumentUrl(Fields(Some(url), Some(sas)))
         == Success((if TrimsDecoded(|url|) then DropLast(text) else text) + sas)
  {
  }

  /** A record without `Url` becomes the error record for `KeyError('Url')`, and the OCR service is not consulted. */
  lemma MissingUrlRecord(endpoint: string, key: string, recordId: string, sas: Option<string>, ocr: Ocr)
    ensures Read(endpoint, key, recordId, Fields(None, sas), ocr) == Failed(recordId, [ErrorEntry("Error: 'Url'")])
  {
    QuotedMessage("Url", "Error: 'Url'");
  }

  /**
   * `SasToken` is looked up only after the decoding: any `Url` that
   * decodes, without a token, gives the error record for
   * `KeyError('SasToken')`.
   */
  lemma MissingTokenRecord(endpoint: string, key: string, recordId: string, url: string, ocr: Ocr)
    requires DecodedText(url).Success?
    ensures Read(endpoint, key, recordId, Fields(Some(url), None), ocr) == Failed(recordId, [ErrorEntry("Error: 'SasToken'")])
  {
    QuotedMessage("SasToken", "Error: 'SasToken'");
    FailureRecord(endpoint, key, recordId, Fields(Some(url), None), ocr, MissingKey("SasToken"), "Error: 'SasToken'");
  }

  /** The message of a `KeyError`: the key between quotes. */
  lemma QuotedMessage(k: string, m: string)
    requires m == "Error: '" + k + "'"
    ensures "Error: " + Describe(MissingKey(k)) == m
  {
  }

  /** A URL that cannot be built gives the error record for that failure. */
  lemma FailureRecord(endpoint: string, key: string, recordId: string, data: Fields, ocr: Ocr, f: Failure, m: string)
    requires DocumentUrl(data) == Failure(f) && m == "Error: " + Describe(f)
    ensures Read(endpoint, key, recordId, data, ocr) == Failed(recordId, [ErrorEntry(m)])
  {
  }

  /**
   * ... and a `Url` that does not decode is reported even when the token is
   * missing too: data characters of length 2 (mod 4) give the record for
   * "Incorrect padding".
   */
  lemma BadUrlBeforeToken(endpoint: string, key: string, recordId: string, url: string, ocr: Ocr)
    requires Base64.IsData(url) && |url| % 4 == 2
    ensures Read(endpoint, key, recordId, Fields(Some(url), None), ocr)
         == Failed(recordId, [ErrorEntry("Error: Incorrect padding")])
  {
    OnePadBranchRejects(url, None);
    PaddingMessage("Error: Incorrect padding");
    FailureRecord(endpoint, key, recordId, Fields(Some(url), None), ocr,
                  BadBase64(Base64.IncorrectPadding), "Error: Incorrect padding");
  }

  /** The message of the padding error. */
  lemma PaddingMessage(m: string)
    requires m == "Error: Incorrect padding"
    ensures "Error: " + Describe(BadBase64(Base64.IncorrectPadding)) == m
  {
  }

  // ---------------------------------------------------------------------
  // What the four branches make of well-formed encodings.

  /** Every character of a canonical encoding is ASCII. */
  lemma EncodingIsAscii(b: seq<byte>)
    ensures IsAscii(Base64.Encode(b))
  {
    var s := Base64.Encode(b);
    var data := Base64.Unpadded(b);
    forall i | 0 <= i < |s| ensures (s[i] as int) < 128 {
      if i < |data| {
        assert s[i] == data[i] && Base64.IsAlphabet(data[i]);
      } else {
        assert s[i] == '=';
      }
    }
  }

  lemma DataIsAscii(s: string)
    requires Base64.IsData(s)
    ensures IsAscii(s)
  {
    forall i | 0 <= i < |s| ensures (s[i] as int) < 128 {
      assert Base64.IsAlphabet(s[i]);
    }
  }

  /** The canonical encoding of a URL decodes back to that URL. */
  lemma DecodesCanonical(u: string)
    ensures Base64.Decode(Base64.Encode(Utf8.Encode(u))) == Success(Utf8.Encode(u))
    ensures Utf8.Decode(Utf8.Encode(u)) == Success(u)
    ensures IsAscii(Base64.Encode(Utf8.Encode(u)))
  {
    Base64.DecodeEncode(Utf8.Encode(u));
    Utf8.DecodeEncode(u);
    EncodingIsAscii(Utf8.Encode(u));
  }

  /**
   * A canonically padded `Url` always has a length that is a multiple of
   * four, so the first branch runs and the URL loses its last character,
   * whatever that character is.
   */
  lemma CanonicalLosesLastChar(u: string, sas: string)
    ensures DocumentUrl(Fields(Some(Base64.Encode(Utf8.Encode(u))), Some(sas))) == Success(DropLast(u) + sas)
  {
    var b := Utf8.Encode(u);
    var url := Base64.Encode(b);
    DecodesCanonical(u);
    assert |url| % 4 == 0;
    assert Repaired(url) == url;
    DecodedTextOf(url, b, u);
    DocumentUrlOf(url, sas, u);
  }

  /** Only a producer that appends one delimiter before encoding gets its URL through intact. */
  lemma DelimiterRecovered(u: string, delimiter: char, sas: string)
    ensures DocumentUrl(Fields(Some(Base64.Encode(Utf8.Encode(u + [delimiter]))), Some(sas))) == Success(u + sas)
  {
    CanonicalLosesLastChar(u + [delimiter], sas);
    assert DropLast(u + [delimiter]) == u;
  }

  /**
   * Branch 1: one stray character after a canonical encoding is dropped
   * before decoding, and the decoded URL is kept whole.
   */
  lemma StrayCharacterDropped(u: string, stray: char, sas: string)
    ensures DocumentUrl(Fields(Some(Base64.Encode(Utf8.Encode(u)) + [stray]), Some(sas))) == Success(u + sas)
  {
    var b := Utf8.Encode(u);
    var e := Base64.Encode(b);
    var url := e + [stray];
    StrayRepaired(e, stray);
    DecodesCanonical(u);
    DecodedTextOf(url, b, u);
    DocumentUrlOf(url, sas, u);
  }

  /** One character after a whole number of quanta selects branch 1, which removes it again. */
  lemma StrayRepaired(e: string, stray: char)
    requires |e| % 4 == 0
    ensures Repaired(e + [stray]) == e && !TrimsDecoded(|e + [stray]|)
  {
    var url := e + [stray];
    assert |url| % 4 == 1;
    assert url[..|url| - 1] == e;
  }

  /**
   * Branch 2 never succeeds on data characters alone: one '=' leaves the
   * final quantum one pad short, and the non-strict decoder rejects it,
   * whatever the token.
   */
  lemma OnePadBranchRejects(url: string, sas: Option<string>)
    requires Base64.IsData(url) && |url| % 4 == 2
    ensures DocumentUrl(Fields(Some(url), sas)) == Failure(BadBase64(Base64.IncorrectPadding))
  {
    Base64.OnePadShort(url);
    DataIsAscii(url);
    PadsAscii(url, "=");
  }

  /**
   * Branch 3 pads with two '=' where one completes the quantum; the
   * non-strict decoder stops at the first and ignores the second, so the
   * result is that of the correct padding.
   */
  lemma TwoPadBranchAccepts(url: string)
    requires Base64.IsData(url) && |url| % 4 == 3
    ensures Base64.Decode(Repaired(url)) == Base64.Decode(url + "=")
    ensures Base64.Decode(Repaired(url)).Success?
  {
    Base64.OverPadded(url);
  }

  /**
   * A producer that omits padding: one octet past a group boundary gives a
   * `Url` of length 2 (mod 4), which always fails; two octets past it give
   * length 3 (mod 4), which decodes and then loses the last character, as
   * does a whole number of groups.
   */
  lemma UnpaddedProducer(u: string, sas: string)
    ensures var b := Utf8.Encode(u);
      var r := DocumentUrl(Fields(Some(Base64.Unpadded(b)), Some(sas)));
      && (|b| % 3 == 1 ==> r == Failure(BadBase64(Base64.IncorrectPadding)))
      && (|b| % 3 != 1 ==> r == Success(DropLast(u) + sas))
  {
    var b := Utf8.Encode(u);
    var url := Base64.Unpadded(b);
    Base64.UnpaddedRemainder(b);
    if |b| % 3 == 1 {
      OnePadBranchRejects(url, Some(sas));
    } else {
      Utf8.DecodeEncode(u);
      if |b| % 3 == 0 {
        assert Repaired(url) == Base64.Encode(b) by {
          assert Base64.Encode(b) == url + "";
        }
        Base64.DecodeEncode(b);
        EncodingIsAscii(b);
      } else {
        UnpaddedTwoPads(b);
      }
      DecodedTextOf(url, b, u);
      DocumentUrlOf(url, sas, u);
    }
  }

  /** Two octets past a group boundary: the repaired string decodes like the canonical encoding. */
  lemma UnpaddedTwoPads(b: seq<byte>)
    requires |b| % 3 == 2
    ensures IsAscii(Repaired(Base64.Unpadded(b)))
    ensures Base64.Decode(Repaired(Base64.Unpadded(b))) == Success(b)
  {
    var url := Base64.Unpadded(b);
    Base64.UnpaddedRemainder(b);
    assert Repaired(url) == url + "==";
    TwoPadBranchAccepts(url);
    assert url + "=" == Base64.Encode(b);
    Base64.DecodeEncode(b);
    DataIsAscii(url);
    PadsAscii(url, "==");
  }

  /** Appending '=' keeps a string ASCII. */
  lemma PadsAscii(s: string, pads: string)
    requires IsAscii(s) && forall i :: 0 <= i < |pads| ==> pads[i] == '='
    ensures IsAscii(s + pads)
  {
    forall i | 0 <= i < |s + pads| ensures ((s + pads)[i] as int) < 128 {
      if i < |s| { assert (s + pads)[i] == s[i]; } else { assert (s + pads)[i] == pads[i - |s|]; }
    }
  }

  // ---------------------------------------------------------------------
  // The test inputs. The literals come in as parameters fixed by `requires`
  // so that the verifier reasons about variables instead of evaluating every
  // function on the literal itself.

  /** `"dGVzdC11cmw="` is the encoding of "test-url" and yields "test-ur?sas=token". */
  lemma TestUrlExample(url: string, sas: string)
    requires url == "dGVzdC11cmw=" && sas == "?sas=token"
    ensures DocumentUrl(Fields(Some(url), Some(sas))) == Success("test-ur?sas=token")
  {
    var u := "test-url";
    TestUrlEncoding(u, url);
    Joined(u, sas, "test-ur?sas=token");
    CanonicalExample(u, url, sas, "test-ur?sas=token");
  }

  lemma TestUrlEncoding(u: string, url: string)
    requires u == "test-url" && url == "dGVzdC11cmw="
    ensures Base64.Encode(Utf8.Encode(u)) == url
  {
    var b: seq<byte> := [116, 101, 115, 116, 45, 117, 114, 108];
    SpellDGVz(b[..3]);
    SpellDC11(b[3..6]);
    SpellCmw(b[6..]);
    EncodedText(u, b, "dGVz", "dC11", "cmw", url);
  }

  /** `"bW9ja191cmw="` is the encoding of "mock_url" and yields "mock_ur?sas=mock". */
  lemma MockUrlExample(url: string, sas: string)
    requires url == "bW9ja191cmw=" && sas == "?sas=mock"
    ensures DocumentUrl(Fields(Some(url), Some(sas))) == Success("mock_ur?sas=mock")
  {
    var u := "mock_url";
    MockUrlEncoding(u, url);
    Joined(u, sas, "mock_ur?sas=mock");
    CanonicalExample(u, url, sas, "mock_ur?sas=mock");
  }

  lemma MockUrlEncoding(u: string, url: string)
    requires u == "mock_url" && url == "bW9ja191cmw="
    ensures Base64.Encode(Utf8.Encode(u)) == url
  {
    var b: seq<byte> := [109, 111, 99, 107, 95, 117, 114, 108];
    SpellBW9j(b[..3]);
    SpellA191(b[3..6]);
    SpellCmw(b[6..]);
    EncodedText(u, b, "bW9j", "a191", "cmw", url);
  }

  /** Eight ASCII characters whose octets spell `q0`, `q1` and `q2` encode to `url`. */
  lemma EncodedText(u: string, b: seq<byte>, q0: string, q1: string, q2: string, url: string)
    requires IsAscii(u) && |u| == |b| == 8 && forall i :: 0 <= i < 8 ==> b[i] == u[i] as int as byte
    requires Base64.Spell(Base64.Sextets(b[..3])) == q0
    requires Base64.Spell(Base64.Sextets(b[3..6])) == q1
    requires Base64.Spell(Base64.Sextets(b[6..])) == q2
    requires url == q0 + q1 + q2 + "="
    ensures Base64.Encode(Utf8.Encode(u)) == url
  {
    Utf8Ascii(u);
    assert Utf8.Encode(u) == b;
    EncodeEight(b, q0, q1, q2);
  }

  /** A canonical encoding used as an example. */
  lemma CanonicalExample(u: string, url: string, sas: string, expected: string)
    requires Base64.Encode(Utf8.Encode(u)) == url && DropLast(u) + sas == expected
    ensures DocumentUrl(Fields(Some(url), Some(sas))) == Success(expected)
  {
    CanonicalLosesLastChar(u, sas);
  }

  /** The document URL of an example, spelled out. */
  lemma Joined(u: string, sas: string, expected: string)
    requires |u| == 8 && |expected| == 7 + |sas|
    requires forall i :: 0 <= i < 7 ==> expected[i] == u[i]
    requires forall i :: 0 <= i < |sas| ==> expected[7 + i] == sas[i]
    ensures DropLast(u) + sas == expected
  {
  }

  /** ASCII text encodes to its code points, one byte each. */
  lemma {:induction false} Utf8Ascii(s: string)
    requires IsAscii(s)
    ensures Utf8.Encode(s) == seq(|s|, i requires 0 <= i < |s| => s[i] as int as byte)
    decreases |s|
  {
    if |s| > 0 {
      Utf8Ascii(s[1..]);
    }
  }

  lemma SpellDGVz(g: seq<byte>)
    requires g == [116, 101, 115]
    ensures Base64.Spell(Base64.Sextets(g)) == "dGVz"
  {
    SpellGroup(g, [29, 6, 21, 51], "dGVz");
  }

  lemma SpellDC11(g: seq<byte>)
    requires g == [116, 45, 117]
    ensures Base64.Spell(Base64.Sextets(g)) == "dC11"
  {
    SpellGroup(g, [29, 2, 53, 53], "dC11");
  }

  lemma SpellBW9j(g: seq<byte>)
    requires g == [109, 111, 99]
    ensures Base64.Spell(Base64.Sextets(g)) == "bW9j"
  {
    SpellGroup(g, [27, 22, 61, 35], "bW9j");
  }

  lemma SpellA191(g: seq<byte>)
    requires g == [107, 95, 117]
    ensures Base64.Spell(Base64.Sextets(g)) == "a191"
  {
    SpellGroup(g, [26, 53, 61, 53], "a191");
  }

  lemma SpellCmw(g: seq<byte>)
    requires g == [114, 108]
    ensures Base64.Spell(Base64.Sextets(g)) == "cmw"
  {
    SpellGroup(g, [28, 38, 48], "cmw");
  }

  /** One group's sextets and their characters, computed. */
  lemma SpellGroup(g: seq<byte>, v: seq<nat>, s: string)
    requires 1 <= |g| <= 3 && |v| == |g| + 1 && |s| == |v|
    requires Base64.Sextets(g) == v
    requires forall i :: 0 <= i < |v| ==> v[i] < 64 && Base64.Char(v[i]) == s[i]
    ensures Base64.Spell(Base64.Sextets(g)) == s
  {
  }

  /** The encoding of eight octets: two full groups and a final pair, then one pad. */
  lemma EncodeEight(b: seq<byte>, q0: string, q1: string, q2: string)
    requires |b| == 8
    requires Base64.Spell(Base64.Sextets(b[..3])) == q0
    requires Base64.Spell(Base64.Sextets(b[3..6])) == q1
    requires Base64.Spell(Base64.Sextets(b[6..])) == q2
    ensures Base64.Encode(b) == q0 + q1 + q2 + "="
  {
    assert b[3..][..3] == b[3..6] && b[3..][3..] == b[6..];
    assert Base64.Unpadded(b[6..]) == q2;
    assert Base64.Unpadded(b[3..]) == q1 + q2;
  }
}
