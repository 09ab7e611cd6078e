/**
  `app/services/acord/acord_pipeline.py`: `AcordExtractionPipeline.process`
  as a function of the detector's and extractor's results. Direct mapping,
  organizing and formatting are the modelled components; the detector and
  the extractor it calls are not part of this model and arrive as values.
*/
module Pipeline {
  import opened Wrappers
  import opened JsonValue
  import Dicts
  import DirectMapper
  import ResponseParsing
  import Organizer
  import Formatter

  /** What `process` reads from the detection result. */
  datatype Detection = Detection(isFillable: bool, isAcord: bool)

  /** The extractor's `{success, error?, data}`. */
  datatype Extraction = Extraction(success: bool, error: Option<string>, data: Object)

  /** The result dict: `formatted_data` and `tokens_used` are present only on success. */
  datatype Outcome = Outcome(success: bool, error: Option<string>, formattedData: Option<Object>, tokensUsed: Option<Json>)

  const NotFillable := "PDF is not a fillable form. Use universal extraction instead."
  const ExtractionFailed := "Failed to extract form fields"
  const NoFieldsExtracted := "No fields extracted from PDF"

  function Abort(error: string): Outcome {
    Outcome(false, Some(error), None, None)
  }

  /** The unformatted data kept from the organizer: `{}` when it failed. */
  function Unformatted(ai: Organizer.Organized): (r: Json)
    ensures !ai.success ==> r == ResponseParsing.EmptyObject
  {
    if !ai.success then ResponseParsing.EmptyObject else ai.data
  }

  /** The coverage data with the organizer's output added under `unformatted_data` when that is non-empty. */
  function Merge(coverage: Object, unformatted: Json): (r: Object)
    ensures !Truthy(unformatted) ==> r == coverage
    ensures Truthy(unformatted) ==> Get(r, "unformatted_data") == unformatted
  {
    if Truthy(unformatted) then Dicts.Put(coverage, "unformatted_data", unformatted) else coverage
  }

  /**
    `process`. Failure stands for an exception escaping `format_for_tabs`,
    which the pipeline does not catch.
  */
  function Process(
    detection: Detection, extraction: Extraction, table: DirectMapper.Table,
    call: Organizer.Call<string>, parse: ResponseParsing.Parser): (r: Result<Outcome, string>)
    ensures !detection.isFillable ==> r == Success(Abort(NotFillable))
    ensures detection.isFillable && !extraction.success ==>
      r == Success(Abort(extraction.error.GetOr(ExtractionFailed)))
    ensures detection.isFillable && extraction.success && |extraction.data| == 0 ==>
      r == Success(Abort(NoFieldsExtracted))
    ensures r.Success? && r.value.success ==> r.value.formattedData.Some? && r.value.tokensUsed.Some? && r.value.error.None?
    ensures r.Success? && !r.value.success ==> r.value.error.Some? && r.value.formattedData.None?
  {
    if !detection.isFillable then Success(Abort(NotFillable))
    else if !extraction.success then Success(Abort(extraction.error.GetOr(ExtractionFailed)))
    else if |extraction.data| == 0 then Success(Abort(NoFieldsExtracted))
    else
      var (coverage, unmapped) := DirectMapper.DirectMap(extraction.data, table);
      var ai := Organizer.OrganizeUnformatted(unmapped, call, parse);
      var organized := Merge(coverage, Unformatted(ai));
      match Formatter.FormatForTabs(organized)
      case Failure(e) => Failure(e)
      case Success(formatted) =>
        Success(Outcome(true, None, Some(formatted), Some(ai.tokensUsed.GetOr(ResponseParsing.EmptyObject))))
  }

  /** The formatted data is the projection of the direct-mapped coverage alone. */
  lemma FormattedFromCoverage(
    detection: Detection, extraction: Extraction, table: DirectMapper.Table,
    call: Organizer.Call<string>, parse: ResponseParsing.Parser)
    requires detection.isFillable && extraction.success && |extraction.data| > 0
    ensures var coverage := DirectMapper.DirectMap(extraction.data, table).0;
      var r := Process(detection, extraction, table, call, parse);
      (r.Success? <==> Formatter.FormatForTabs(coverage).Success?) &&
      (r.Success? ==> r.value.success && r.value.formattedData == Some(Formatter.FormatForTabs(coverage).value))
  {
    var (coverage, unmapped) := DirectMapper.DirectMap(extraction.data, table);
    var ai := Organizer.OrganizeUnformatted(unmapped, call, parse);
    if Truthy(Unformatted(ai)) {
      Formatter.UnformattedDataIgnored(coverage, Unformatted(ai));
    }
  }

  /**
    The organizer's outcome never changes the formatted data: two service
    behaviours, one failing and one succeeding say, give the same projection.
    An organizer failure is therefore not fatal.
  */
  lemma OrganizerIrrelevantToFormatting(
    detection: Detection, extraction: Extraction, table: DirectMapper.Table,
    call1: Organizer.Call<string>, call2: Organizer.Call<string>, parse: ResponseParsing.Parser)
    ensures var r1 := Process(detection, extraction, table, call1, parse);
      var r2 := Process(detection, extraction, table, call2, parse);
      r1.Success? == r2.Success? &&
      (r1.Success? ==> r1.value.success == r2.value.success && r1.value.formattedData == r2.value.formattedData)
  {
    if detection.isFillable && extraction.success && |extraction.data| > 0 {
      FormattedFromCoverage(detection, extraction, table, call1, parse);
      FormattedFromCoverage(detection, extraction, table, call2, parse);
    }
  }

  /** Only `is_fillable` gates the pipeline: `is_acord` is never consulted. */
  lemma IsAcordNotConsulted(
    fillable: bool, acord1: bool, acord2: bool, extraction: Extraction, table: DirectMapper.Table,
    call: Organizer.Call<string>, parse: ResponseParsing.Parser)
    ensures Process(Detection(fillable, acord1), extraction, table, call, parse)
         == Process(Detection(fillable, acord2), extraction, table, call, parse)
  {
  }

  /** A form that is not fillable is rejected before extraction: the extraction result is never looked at. */
  lemma NotFillableSkipsExtraction(
    acord: bool, e1: Extraction, e2: Extraction, table: DirectMapper.Table,
    call: Organizer.Call<string>, parse: ResponseParsing.Parser)
    ensures Process(Detection(false, acord), e1, table, call, parse) == Process(Detection(false, acord), e2, table, call, parse)
  {
  }
}
