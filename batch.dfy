/**
 * `compose_response`: the skill's batch entry point. It looks up the
 * request's `values`, reads the service endpoint and key from the
 * environment, and then runs `read` on every record in order, appending
 * each output record to the response's `values` list. A missing key outside
 * `read` is a `KeyError` that escapes, and then there is no response at all.
 */
module Batch {
  import opened Prelude
  import Reader

  /** One element of the request's `values` list; either key may be missing. */
  datatype InputRecord = InputRecord(recordId: Option<string>, data: Option<Reader.Fields>)

  /** The parsed request body: an object whose `values` key may be missing. */
  datatype Request = Request(values: Option<seq<InputRecord>>)

  /** The two environment settings, `FR_ENDPOINT` and `FR_ENDPOINT_KEY`; either may be unset. */
  datatype Settings = Settings(endpoint: Option<string>, key: Option<string>)

  /** The `KeyError` that escapes `compose_response`, by the key that was missing. */
  datatype KeyError = KeyError(key: string)

  /** The response body: `{"values": [...]}`. */
  datatype Response = Response(values: seq<Reader.OutputRecord>)

  /** A record that has both keys `compose_response` itself looks up. */
  predicate WellFormed(v: InputRecord)
  {
    v.recordId.Some? && v.data.Some?
  }

  /** The key whose lookup fails first for a record: `recordId` is evaluated before `data`. */
  function Defect(v: InputRecord): (k: string)
    requires !WellFormed(v)
    ensures v.recordId.None? <==> k == "recordId"
    ensures v.recordId.Some? <==> k == "data"
  {
    if v.recordId.None? then "recordId" else "data"
  }

  /** The call in the loop body, `read(endpoint=..., key=..., recordId=..., data=...)`, with endpoint and key fixed. */
  type RecordReader = (string, Reader.Fields) -> Reader.OutputRecord

  /** `read` with the batch's endpoint, key and OCR service. */
  function Reading(endpoint: string, key: string, ocr: Reader.Ocr): RecordReader
  {
    (recordId, data) => Reader.Read(endpoint, key, recordId, data, ocr)
  }

  /** One iteration of the loop: the output record for `v`, or the lookup that fails. */
  function ReadRecord(read: RecordReader, v: InputRecord): Result<Reader.OutputRecord, KeyError>
  {
    if !WellFormed(v) then Failure(KeyError(Defect(v)))
    else Success(read(v.recordId.value, v.data.value))
  }

  /**
   * The records collected for `values`, processed first to last: the first
   * record whose lookup fails ends the batch with its `KeyError`.
   */
  function ReadAll(read: RecordReader, values: seq<InputRecord>): (r: Result<seq<Reader.OutputRecord>, KeyError>)
    ensures r.Success? ==> |r.value| == |values|
    ensures r.Failure? ==> r.error.key == "recordId" || r.error.key == "data"
    decreases |values|
  {
    if |values| == 0 then Success([])
    else
      match ReadAll(read, values[..|values| - 1])
      case Failure(e) => Failure(e)
      case Success(done) =>
        match ReadRecord(read, values[|values| - 1])
        case Failure(e) => Failure(e)
        case Success(output) => Success(done + [output])
  }

  /** What `compose_response` returns or raises: lookups of `values`, `FR_ENDPOINT`, `FR_ENDPOINT_KEY`, then the loop. */
  function Envelope(request: Request, settings: Settings, ocr: Reader.Ocr): (r: Result<Response, KeyError>)
    ensures r.Success? ==> request.values.Some? && settings.endpoint.Some? && settings.key.Some?
    ensures r.Success? ==> |r.value.values| == |request.values.value|
    ensures r.Failure? ==>
      || r.error.key == "values" || r.error.key == "FR_ENDPOINT" || r.error.key == "FR_ENDPOINT_KEY"
      || r.error.key == "recordId" || r.error.key == "data"
  {
    if request.values.None? then Failure(KeyError("values"))
    else if settings.endpoint.None? then Failure(KeyError("FR_ENDPOINT"))
    else if settings.key.None? then Failure(KeyError("FR_ENDPOINT_KEY"))
    else
      match ReadAll(Reading(settings.endpoint.value, settings.key.value, ocr), request.values.value)
      case Failure(e) => Failure(e)
      case Success(outputs) => Success(Response(outputs))
  }

  /** `compose_response`: the lookups of `values` and of the two settings, then the loop. */
  method ComposeResponse(request: Request, settings: Settings, ocr: Reader.Ocr) returns (r: Result<Response, KeyError>)
    ensures r == Envelope(request, settings, ocr)
  {
    if request.values.None? {
      return Failure(KeyError("values"));
    }
    if settings.endpoint.None? {
      return Failure(KeyError("FR_ENDPOINT"));
    }
    if settings.key.None? {
      return Failure(KeyError("FR_ENDPOINT_KEY"));
    }
    var outcome := ReadRecords(settings.endpoint.value, settings.key.value, request.values.value, ocr);
    match outcome
    case Failure(e) => return Failure(e);
    case Success(results) => return Success(Response(results));
  }

  /** The `for` loop of `compose_response`, appending each record `read` returns to `results["values"]`. */
  method ReadRecords(endpoint: string, key: string, values: seq<InputRecord>, ocr: Reader.Ocr)
    returns (r: Result<seq<Reader.OutputRecord>, KeyError>)
    ensures r == ReadAll(Reading(endpoint, key, ocr), values)
  {
    ghost var read := Reading(endpoint, key, ocr);
    var results: seq<Reader.OutputRecord> := [];
    for i := 0 to |values|
      invariant ReadAll(read, values[..i]) == Success(results)
    {
      var value := values[i];
      assert values[..i + 1][..i] == values[..i];
      if value.recordId.None? {
        FailureStays(read, values, i + 1);
        return Failure(KeyError("recordId"));
      }
      var recordId := value.recordId.value;
      if value.data.None? {
        FailureStays(read, values, i + 1);
        return Failure(KeyError("data"));
      }
      var output := Reader.Read(endpoint, key, recordId, value.data.value, ocr);
      assert output == read(recordId, value.data.value);
      results := results + [output];
    }
    assert values[..|values|] == values;
    return Success(results);
  }

  /** Once a prefix of the batch has failed, the rest of the records are never looked at. */
  lemma {:induction false} FailureStays(read: RecordReader, values: seq<InputRecord>, n: nat)
    requires n <= |values|
    requires ReadAll(read, values[..n]).Failure?
    ensures ReadAll(read, values) == ReadAll(read, values[..n])
    decreases |values| - n
  {
    if n < |values| {
      var longer := values[..n + 1];
      assert longer[..|longer| - 1] == values[..n];
      FailureStays(read, values, n + 1);
    } else {
      assert values[..n] == values;
    }
  }

  /**
   * The batch completes exactly when every record is well formed; then
   * there is one output per input, in the same order, and output `i` is
   * the record read from input `i` alone.
   */
  lemma {:induction false} ReadAllPointwise(read: RecordReader, values: seq<InputRecord>)
    ensures ReadAll(read, values).Success? <==> forall i :: 0 <= i < |values| ==> WellFormed(values[i])
    ensures ReadAll(read, values).Success? ==>
      var outputs := ReadAll(read, values).value;
      && |outputs| == |values|
      && forall i :: 0 <= i < |values| ==> outputs[i] == read(values[i].recordId.value, values[i].data.value)
    decreases |values|
  {
    if |values| > 0 {
      var front := values[..|values| - 1];
      ReadAllPointwise(read, front);
      assert forall i :: 0 <= i < |front| ==> front[i] == values[i];
    }
  }

  /**
   * The `KeyError` that escapes the loop is that of the first record that
   * lacks `recordId` or `data`.
   */
  lemma FirstDefectRead(read: RecordReader, values: seq<InputRecord>, j: nat)
    requires j < |values| && !WellFormed(values[j])
    requires forall i :: 0 <= i < j ==> WellFormed(values[i])
    ensures ReadAll(read, values) == Failure(KeyError(Defect(values[j])))
  {
    var front := values[..j];
    ReadAllPointwise(read, front);
    assert forall i :: 0 <= i < |front| ==> front[i] == values[i];
    var upTo := values[..j + 1];
    assert upTo[..|upTo| - 1] == front;
    FailureStays(read, values, j + 1);
  }

  /**
   * `compose_response` returns a response exactly when `values` and both
   * settings exist and every record has `recordId` and `data`; the response
   * holds one record per input, in order, each carrying its input's
   * `recordId` and being what `read` returns for that input alone.
   */
  lemma ResponseShape(request: Request, settings: Settings, ocr: Reader.Ocr)
    ensures Envelope(request, settings, ocr).Success? <==>
      && request.values.Some? && settings.endpoint.Some? && settings.key.Some?
      && forall i :: 0 <= i < |request.values.value| ==> WellFormed(request.values.value[i])
    ensures Envelope(request, settings, ocr).Success? ==>
      var values := request.values.value;
      var outputs := Envelope(request, settings, ocr).value.values;
      && |outputs| == |values|
      && forall i :: 0 <= i < |values| ==>
           && outputs[i].recordId == values[i].recordId.value
           && outputs[i] == Reader.Read(settings.endpoint.value, settings.key.value,
                                        values[i].recordId.value, values[i].data.value, ocr)
  {
    if request.values.Some? && settings.endpoint.Some? && settings.key.Some? {
      var read := Reading(settings.endpoint.value, settings.key.value, ocr);
      ReadAllPointwise(read, request.values.value);
    }
  }

  /**
   * The `KeyError` that escapes is that of the first defect: `values`,
   * then `FR_ENDPOINT`, then `FR_ENDPOINT_KEY`, then the first record
   * lacking `recordId` or `data`.
   */
  lemma FirstDefect(request: Request, settings: Settings, ocr: Reader.Ocr, j: nat)
    requires request.values.Some? && settings.endpoint.Some? && settings.key.Some?
    requires j < |request.values.value| && !WellFormed(request.values.value[j])
    requires forall i :: 0 <= i < j ==> WellFormed(request.values.value[i])
    ensures Envelope(request, settings, ocr) == Failure(KeyError(Defect(request.values.value[j])))
  {
    FirstDefectRead(Reading(settings.endpoint.value, settings.key.value, ocr), request.values.value, j);
  }

  /**
   * Per-record isolation: replacing one well-formed record by another
   * changes only that record's entry of the response; every other entry is
   * what it was.
   */
  lemma Isolation(read: RecordReader, values: seq<InputRecord>, j: nat, w: InputRecord)
    requires ReadAll(read, values).Success?
    requires j < |values| && WellFormed(w)
    ensures ReadAll(read, values[j := w]).Success?
    ensures var before, after := ReadAll(read, values).value, ReadAll(read, values[j := w]).value;
      && |before| == |after| == |values|
      && after[j] == read(w.recordId.value, w.data.value)
      && forall i :: 0 <= i < |before| && i != j ==> after[i] == before[i]
  {
    ReadAllPointwise(read, values);
    ReadAllPointwise(read, values[j := w]);
  }

  /**
   * Three records with ids "1", "2" and "3" give a response of three
   * records with those ids, in that order, whatever the OCR service does.
   */
  lemma RequestCountExample(request: Request, settings: Settings, ocr: Reader.Ocr, data: Reader.Fields)
    requires data == Reader.Fields(Some("dGVzdC11cmw="), Some("?sas=token"))
    requires request == Request(Some([InputRecord(Some("1"), Some(data)), InputRecord(Some("2"), Some(data)),
                                      InputRecord(Some("3"), Some(data))]))
    requires settings.endpoint.Some? && settings.key.Some?
    ensures Envelope(request, settings, ocr).Success?
    ensures var outputs := Envelope(request, settings, ocr).value.values;
      |outputs| == 3 && outputs[0].recordId == "1" && outputs[1].recordId == "2" && outputs[2].recordId == "3"
  {
    ResponseShape(request, settings, ocr);
  }
}
