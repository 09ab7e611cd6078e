# ACORD certificate pipeline and certificate validation, modelled in Dafny

This project models the deterministic core of a service that reads ACORD 25
insurance certificates and validates certificates against product rules:

- **field extraction.** Two variants of the PyPDF field extractor, each with
  its own field-name cleaning and checkbox decoding, and the merging of text
  fields and checkboxes into one map.
- **the ACORD detector.** Pattern counting and confidence tiers.
- **the direct mapper.** Key normalisation, routing of fields into the
  coverage schema or the unmapped map, dot-path writes with address
  concatenation, and the recursive checkbox pass.
- **the two organizers.** Prompt filtering, the empty-input short cut, and
  reply parsing with the fence and brace fallbacks.
- **the formatter.** The tabbed projection.
- **the pipeline.** The abort and degrade steps of the pipeline that ties
  these together.
- **certificate validation.**
  - text normalisation;
  - rule candidate splitting;
  - the Jaccard and fuzzy scores;
  - the five-tier product matching cascade;
  - the product-name tree walk.
- **rule payloads and the rule table.** The validation of rule payloads and
  the create, read, update and delete operations on the rule table. The
  table is a `map<int, Row>` with an identity counter, and a rolled-back
  transaction leaves the table unchanged.
- **side paths.**
  - the universal extractor's form-field classification and text and
    fallback decisions;
  - the embedding service's vector fitting and retry schedule;
  - the vectorizer's identifier validation, found and missing split, and
    result.

The model follows the code's own structure, one Dafny module per source
component, plus four shared modules:

- `Wrappers` provides Option and Result.
- `Strings` provides Python's `strip`, `lower`, `find`, `split` and
  `replace`.
- `Dicts` models Python dicts as association lists that keep insertion
  order.
- `JsonValue` models loosely typed JSON values, with Python truthiness and
  `str`.

Two more modules, `Seqs` and `Sorting`, hold sequence helpers. Everything
outside the process becomes a function-typed parameter:

- the PDF reader's output;
- the language model;
- `json.loads`;
- the stemmer and `SequenceMatcher.ratio`;
- the embeddings API;
- the database's answer;
- the bulk indexer.

A raised exception is a `Failure` value, or a `None` where the source turns
it into a default.

Three behaviours of the code are easy to misread, and the model follows
the code in each:

- `format_for_tabs` never reads `unformatted_data`, so no tab carries it
  (`Formatter.UnformattedDataIgnored`).
- Tiers 3 and 4 of the matching cascade, like tier 5, pick the maximal
  score over all pairs rather than the first pair that scores.
- The backend field-name cleaner keeps a `[0]` index whenever `_A`…`_F`
  occurs anywhere in the name, not only as a suffix
  (`PdfFields.BackendMarkerInsideWord`).

## Model

| member | source | states |
|---|---|---|
| PdfFields.CleanName | app/services/pypdf_extractor.py:111-134 | A cleaned name is the raw name with at most one known prefix taken off the front and at most one `[0]` taken off the end. |
| PdfFields.CleanNameShape | app/services/pypdf_extractor.py:121-134 | Every cleaned name is a contiguous slice of the raw name: a prefix of length 0, 5 or 11 is removed, then a suffix of length 0 or 3. |
| PdfFields.StripLongPrefix | app/services/pypdf_extractor.py:124-125 | `F[0].P1[0].` comes off whole (11 characters), whatever follows it. |
| PdfFields.StripShortPrefix | app/services/pypdf_extractor.py:126-127 | `F[0].` comes off alone (5 characters) when the long prefix is absent, so the two prefixes are never both removed. |
| PdfFields.StripNoPrefix | app/services/pypdf_extractor.py:121-127 | A name with neither prefix keeps its front. |
| PdfFields.DropOneIndex | app/services/pypdf_extractor.py:131-132 | The app variant removes exactly one trailing `[0]`: `X[0][0]` becomes `X[0]`. |
| PdfFields.BackendKeepsMarkedIndex | backend/services/pypdf_extractor.py:133-136 | The backend variant keeps the `[0]` of every name that holds `_A`…`_F` anywhere, not only at its end. |
| PdfFields.BackendMarkerInsideWord | backend/services/pypdf_extractor.py:135-136 | `Policy_Amount[0]` keeps its index in the backend variant, because `_A` occurs inside `_Amount`. |
| PdfFields.CleanNameVariantsAgree | backend/services/pypdf_extractor.py:125-138 | The two variants agree on every name whose stripped form holds no `_A`…`_F` marker. |
| PdfFields.AppChecked | app/services/pypdf_extractor.py:137-155 | The box reads /V, or /AS when /V is None. Both None means unchecked. After strip, the true tokens mean checked and the false tokens mean unchecked. |
| PdfFields.AppCheckedFailOpen | app/services/pypdf_extractor.py:141-155 | The app decoder reads a box as unchecked only when the chosen value is missing, or when it names a false token, `''`, `None` or `null`. Every other name reads as checked. |
| PdfFields.AppCheckedToken | app/services/pypdf_extractor.py:141-145 | A name with no edge whitespace is judged as itself. It comes from /V, or from /AS only when /V is None. |
| PdfFields.AppCheckedCaseSensitive | app/services/pypdf_extractor.py:146-152 | Token matching is case-sensitive: `/off` reads as checked and `/Off` as unchecked. |
| PdfFields.BackendChecked | backend/services/pypdf_extractor.py:74-81 | A backend `/Btn` box is checked iff /V is present and its text is exactly one of the eight true tokens. There is no strip and no /AS fallback. |
| PdfFields.BackendCheckedImpliesApp | backend/services/pypdf_extractor.py:74-81 | Whatever the backend decoder reads as checked, the app decoder reads as checked too. |
| PdfFields.AppCheckedNotBackend | app/services/pypdf_extractor.py:141-155 | The converse fails: the app decoder also reads /AS and accepts unknown names. |
| PdfFields.UnknownTokenChecked | app/services/pypdf_extractor.py:154-155 | A stripped name outside every token list reads as checked in the app variant and unchecked in the backend one. |
| PdfFields.TextValue | app/services/pypdf_extractor.py:80-91 | A text field's stored value is never the empty string. A present plain value is stored stripped, or as None when blank. |
| PdfFields.Classify | app/services/pypdf_extractor.py:61-91 | A non-dict entry is skipped. A `/Btn` entry becomes a checkbox read by the variant's checkbox decoder, and anything else a text field holding the resolved or stripped value, always under the cleaned name. |
| PdfFields.Collect | app/services/pypdf_extractor.py:58-91 | The two collected dicts never hold a name twice. |
| PdfFields.CollectTextKeys | app/services/pypdf_extractor.py:58-91 | A text field exists under a name iff some non-button dict entry was written under that name. |
| PdfFields.CollectBoxKeys | app/services/pypdf_extractor.py:58-91 | A checkbox exists under a name iff some `/Btn` entry was written under that name. |
| PdfFields.CollectLastWins | app/services/pypdf_extractor.py:61-91 | The last entry written under a cleaned name decides that name's value. |
| PdfFields.Extract | app/services/pypdf_extractor.py:34-108 | Extraction succeeds iff the reader returned at least one field. A failure has count 0, empty dicts and an error. A success has count = text fields + checkboxes and lists the raw names. |
| PdfFields.CollidingNamesCountOnce | app/services/pypdf_extractor.py:93-95 | Two raw names that clean to the same name are counted once, so `field_count` can be less than the number of raw fields. |
| PdfFields.PresentFields | app/services/pypdf_extractor.py:173-175 | Only the text fields whose value is not None are kept, each with its text, and no name is added. |
| PdfFields.CheckboxWords | app/services/pypdf_extractor.py:178-179 | Every checkbox keeps its name and is rendered "Yes" or "No". |
| PdfFields.Combine | app/services/pypdf_extractor.py:158-185 | A failed extraction passes its error on (the default when it has none). A success reports `field_count` equal to the size of the combined data. |
| PdfFields.CombineGet | backend/services/pypdf_extractor.py:180-196 | In the combined data a checkbox name maps to Yes/No even when a text field has the same name. Any other name maps to its text, and names whose text is None are absent. |
| PdfFields.AllFieldNames | backend/services/pypdf_extractor.py:141-155 | The result is sorted and is a permutation of the text-field and checkbox names. It is empty when extraction failed. |
| PdfFields.HasExtractableText | backend/services/pypdf_extractor.py:199-226 | False when the reader cannot be opened. Otherwise only the first three pages are read, and a page whose text extraction raises ends the check with False. The answer is true iff the text of the pages read before the first raising page reaches `min_chars` and at least one page was read, or no page raised and the whole text reaches it. |
| AcordDetector.Matched | backend/services/acord_detector.py:80-88 | The matched patterns are exactly those of the pattern list that occur, case-insensitively, in some field name, and there are no more of them than patterns. |
| AcordDetector.MatchedDistinct | backend/services/acord_detector.py:82-87 | A pattern list without repeats gives matched patterns without repeats, because the inner loop stops at the first hit. |
| AcordDetector.MatchedCount | backend/services/acord_detector.py:79-87 | With a pattern list without repeats, the match count is the number of distinct patterns that occur in some field name. |
| AcordDetector.DetectPatternCount | backend/services/acord_detector.py:79-87 | The reported match count of a fillable PDF is the number of distinct detector patterns found in its field names. |
| AcordDetector.MatchedMonotone | backend/services/acord_detector.py:83-88 | Adding field names never loses a matched pattern. |
| AcordDetector.ConfidenceOf | backend/services/acord_detector.py:93-104 | The tier is high for at least 8 matches, medium for 5 to 7, low for 3 to 4 and none below 3. |
| AcordDetector.ConfidenceMonotone | backend/services/acord_detector.py:93-104 | A higher match count never gives a lower tier. |
| AcordDetector.IndicatorCount | backend/services/acord_detector.py:150-151 | The indicator count never exceeds the number of indicators. |
| AcordDetector.IndicatorCountHits | backend/services/acord_detector.py:150-151 | The indicator count is the number of indicator positions that occur in some field name. |
| AcordDetector.FormTypeHits | backend/services/acord_detector.py:150-155 | The ACORD 25 label is given iff at least four indicator positions occur in some field name. |
| AcordDetector.FormType | backend/services/acord_detector.py:128-158 | The form type is the ACORD 25 label iff at least 4 of the 6 indicators occur, and the "type undetermined" label otherwise. |
| AcordDetector.Detect | backend/services/acord_detector.py:31-125 | A PDF is fillable iff it has fields; otherwise every count is 0 and the tier is none. `is_acord` holds iff there are at least 3 matches. The label follows the tier. |
| AcordDetector.DetectMonotone | backend/services/acord_detector.py:83-104 | Adding field names never lowers the match count or the tier. |
| AcordDetector.IsFillableAcord | backend/services/acord_detector.py:161-172 | `is_fillable_acord` holds exactly for a PDF with fields matching at least five patterns. |
| DirectMapper.NormalizeKey | app/services/acord/direct_mapper.py:93-100 | A normalised key is a prefix of the raw key. A key that does not end in `]` is unchanged. |
| DirectMapper.NormalizeKeyIndex | app/services/acord/direct_mapper.py:95-100 | Any bracketed index is removed whole: `Name[3]` and `Name[0]` both give `Name`. |
| DirectMapper.NormalizeFields | app/services/acord/direct_mapper.py:91-101 | The normalised fields form a dict, with no key twice. |
| DirectMapper.NormalizeFieldsLaterWins | app/services/acord/direct_mapper.py:91-101 | When two raw keys normalise to the same key, the later entry's value is kept. |
| DirectMapper.AnyPrefixFits | app/services/acord/direct_mapper.py:128-133 | A path is coverage iff it starts with one of the prefixes, or equals one of them without its trailing dots. |
| DirectMapper.CertificateHolderIsCoverage | app/services/acord/direct_mapper.py:35-46 | Every `certificate_holder…` and `general_liability.…` path, and `umbrella`, counts as coverage, while `insured.name` does not. |
| DirectMapper.NullSection | app/services/acord/direct_mapper.py:135-241 | A section of the initial structure holds None under exactly its listed keys. |
| DirectMapper.Cleaned | app/services/acord/direct_mapper.py:255-256 | Only string values change: they are stripped. |
| DirectMapper.SetLeaf | app/services/acord/direct_mapper.py:264-274 | The final key is overwritten unless it is an `address` that already holds a value. Such an address is extended with ", " and the new value when that is non-blank, and left alone otherwise. No other key changes. |
| DirectMapper.SetNested | app/services/acord/direct_mapper.py:243-274 | A write changes only the first key of the path, and never removes a key. |
| DirectMapper.SetPathGet | app/services/acord/direct_mapper.py:252-274 | Read after write: the path then holds exactly the value written, or, for an `address` that already held a value, that value extended or unchanged. |
| DirectMapper.SetPathOther | app/services/acord/direct_mapper.py:243-274 | A write along one path leaves the value at every path that parts from it unchanged. |
| DirectMapper.NormalizeValue | app/services/acord/direct_mapper.py:305-317 | None stays None. A bool, or a word of either list, becomes "Yes" or "No". Any other value is kept. |
| DirectMapper.NormalizeValueIdempotent | app/services/acord/direct_mapper.py:305-317 | Normalising a checkbox value twice gives the same as once. |
| DirectMapper.NormalizeCheckboxes | app/services/acord/direct_mapper.py:319-328 | The pass keeps every key and the dict-or-not shape of every value. Only the non-dict values of the listed checkbox keys change. |
| DirectMapper.NormalizeCheckboxesIdempotent | app/services/acord/direct_mapper.py:276-328 | The checkbox pass is idempotent. |
| DirectMapper.NormalizeCheckboxesGet | app/services/acord/direct_mapper.py:319-326 | After the pass, a key reads a dict processed recursively, a listed checkbox key's other value normalised, and anything else unchanged. |
| DirectMapper.NormalizeCheckboxesGetPath | app/services/acord/direct_mapper.py:276-328 | Reading a path after the pass gives what the pass makes of the value there, by the last key of the path. |
| DirectMapper.ApplyTableUnmapped | app/services/acord/direct_mapper.py:104-116 | After the table loop, a key is in unmapped iff the table sends that present field to a non-coverage path. |
| DirectMapper.ApplyTableFrame | app/services/acord/direct_mapper.py:104-111 | Table entries whose coverage writes all go along paths that part from a path leave the value at that path unchanged. |
| DirectMapper.ApplyTableAt | app/services/acord/direct_mapper.py:104-111 | After the table loop, a present field sent to a coverage path is at that path, stripped, when no later present entry writes along a path that does not part from it and the leaf is not an `address`. |
| DirectMapper.AddUnlistedGet | app/services/acord/direct_mapper.py:118-121 | The second loop adds exactly the present fields the table does not name whose value is not None. |
| DirectMapper.DirectMap | app/services/acord/direct_mapper.py:69-126 | Empty input gives two empty dicts. Otherwise the coverage keeps every key of the initial structure. |
| DirectMapper.DirectMapRouting | app/services/acord/direct_mapper.py:104-121 | A key routed to coverage never appears in unmapped. A key routed elsewhere is in unmapped even when None. An unlisted key is in unmapped iff it is not None. Nothing else is. |
| DirectMapper.CoverageReadBack | app/services/acord/direct_mapper.py:104-124 | From any starting coverage, such a last write reads back after the table loop and the checkbox pass as its stripped value, checkbox-normalised by the leaf key. |
| DirectMapper.DirectMapCoverage | app/services/acord/direct_mapper.py:69-126 | In the coverage returned by `direct_map`, such a field sits at its path, stripped, and passed through the checkbox value normalisation when its leaf is a checkbox key. |
| DirectMapper.InitShape | app/services/acord/direct_mapper.py:135-241 | The initial structure has the nested shape it defines: every section is a dict of non-dict leaves. |
| DirectMapper.ShapeSetPath | app/services/acord/direct_mapper.py:243-274 | Writing a non-dict value at a top-level leaf or at a key of a section keeps the key set at every level and the dict-or-not kind of every value. |
| DirectMapper.ShapeApplyTable | app/services/acord/direct_mapper.py:104-116 | When every table path is such a leaf and no field value is a dict, the table loop keeps the shape of the coverage. |
| DirectMapper.ShapeNormalize | app/services/acord/direct_mapper.py:319-328 | The checkbox pass keeps the shape of the coverage. |
| DirectMapper.DirectMapShape | app/services/acord/direct_mapper.py:69-126 | For a non-empty flat input and a table whose paths are leaves of the initial structure, the returned coverage has exactly the keys of the initial structure at every nesting level, and every section is a dict of non-dict values. |
| DirectMapper.InitCoverage | app/services/acord/direct_mapper.py:135-241 | The initial structure names no key twice. |
| DirectMapper.SetPath | app/services/acord/direct_mapper.py:243-274 | A write changes only the first key of the path and never removes a key. |
| DirectMapper.ApplyTable | app/services/acord/direct_mapper.py:104-116 | The table loop never removes a coverage key. |
| ResponseParsing.ParseText | app/services/acord/acord_organizer.py:134-147 | A text the parser accepts gives its parse. A text neither the parser nor the brace slice rescues gives `{}`. |
| ResponseParsing.ParseTextOrigin | app/services/acord/acord_organizer.py:134-147 | Anything other than `{}` that the parse step returns is the parser's output on a stretch of the text. |
| ResponseParsing.Unfence | app/services/acord/acord_organizer.py:120-132 | What the fence step keeps is a stretch of the reply. |
| ResponseParsing.ParseResponse | app/services/acord/acord_organizer.py:107-147 | An empty reply gives `{}`. Any other reply gives `{}` or what the parser made of some stretch of the reply, so no parse failure escapes. A reply without backticks that parses once stripped gives that parse. |
| ResponseParsing.UnfenceJsonFence | app/services/acord/acord_organizer.py:122-127 | A "```json" fence closed by "```" yields its stripped body, without the word `json` that the bare-fence reading would keep. |
| ResponseParsing.UnfenceBareFence | app/services/acord/acord_organizer.py:128-132 | A bare fence around a body that does not begin with `json` yields the stripped body. |
| ResponseParsing.ParseFencedReply | app/services/acord/acord_organizer.py:117-136 | A fenced reply whose body parses yields exactly that parse. |
| ResponseParsing.BraceSliceOf | app/services/acord/acord_organizer.py:139-141 | The slice taken runs from the first `{` to the last `}`. |
| ResponseParsing.BraceFallback | app/services/acord/acord_organizer.py:134-147 | An unfenced reply that does not parse is read from its first `{` to its last `}`, and is `{}` when that slice does not parse either. |
| ResponseParsing.NoBracesEmpty | backend/services/acord/acord_organizer.py:184-197 | An unfenced reply without `{` that does not parse gives `{}`. |
| Organizer.KeptEntriesMember | app/services/acord/acord_organizer.py:90-91 | An entry is listed in the prompt iff it is in the dict and its value is neither None nor blank. |
| Organizer.KeptEntriesAppend | app/services/acord/acord_organizer.py:90-92 | Listing preserves input order: the entries of a concatenation are those of each part in turn. |
| Organizer.OrganizeUnformatted | app/services/acord/acord_organizer.py:27-85 | Empty input succeeds with `{}`. A failed or raising call gives `{}` with an error. A success carries the parsed reply and the usage, or `{}` when the usage is missing. |
| Organizer.EmptyInputNoCall | app/services/acord/acord_organizer.py:37-41 | With empty input, the outcome does not depend on the language model at all. |
| Organizer.UnkeptEntryIgnored | app/services/acord/acord_organizer.py:87-92 | Appending a None or blank entry changes nothing about the outcome. |
| Organizer.MappingsTextLines | backend/services/acord/acord_organizer.py:121-124 | The mappings block has one `pdf_field → schema_path` line per table entry, in order. |
| Organizer.Organize | backend/services/acord/acord_organizer.py:46-104 | Empty input is a failure with the "no fields" error. A failed or raising call gives `{}`. A success carries the parsed reply. |
| Organizer.EmptyInputVariants | backend/services/acord/acord_organizer.py:56-61 | The variants differ on empty input: the app one succeeds with `{}`, the backend one fails. |
| Organizer.UnkeptEntryIgnoredBackend | backend/services/acord/acord_organizer.py:126-131 | Entries the raw-data block leaves out do not affect the backend outcome. |
| Formatter.FormatCheckboxSpec | app/services/acord/acord_formatter.py:10-20 | The result is only ever "Yes" or "No". It is "Yes" exactly for True and for the listed words after lower-casing and strip. |
| Formatter.FormatCheckboxIdempotent | app/services/acord/acord_formatter.py:10-20 | Formatting a formatted checkbox changes nothing. |
| Formatter.FormatCheckboxOnIsNo | app/services/acord/acord_formatter.py:16-20 | "on" and the number 1 are not ticked, while the string "1" is. |
| Formatter.FormatLimitSpec | app/services/acord/acord_formatter.py:23-34 | A limit is "" for None and for a yes/no/true/false/y/n string. Any other value is its `str`, and a string is unchanged. |
| Formatter.FormatCheckbox | app/services/acord/acord_formatter.py:10-20 | The result is always "Yes" or "No"; `Formatter.FormatCheckboxSpec` states which. |
| Formatter.FormatLimit | app/services/acord/acord_formatter.py:23-34 | The result is "" or the value's `str`; `Formatter.FormatLimitSpec` states which. |
| Formatter.NameOnly | app/services/acord/acord_formatter.py:37-49 | A string is a name iff it holds no digit. A dict gives its `name` when that is a string that is neither blank nor "null" in any case, and "" when the name is missing, falsy, blank or "null". The lookup raises exactly for a dict whose name is truthy but not a string. |
| Formatter.AddressOnly | app/services/acord/acord_formatter.py:52-60 | A string is an address iff it holds a digit. A dict gives its `address` value when that is truthy, whatever its type, and "" otherwise, including when the key is missing. Any value that is neither string nor dict has no address. |
| Formatter.NameAddressSplit | app/services/acord/acord_formatter.py:41-44 | A non-empty string lands in exactly one of name and address. |
| Formatter.NullNameIsEmpty | app/services/acord/acord_formatter.py:45-49 | A dict whose name is "null" in any case, or blank, has no name. |
| Formatter.BlockGet | app/services/acord/acord_formatter.py:88-238 | Each output key of a block reads back its own column's cell. |
| Formatter.OtherCoverageTab | app/services/acord/acord_formatter.py:197-213 | The other-coverage tab has its information block and always exactly three limit rows, first to third. |
| Formatter.FormatForTabs | app/services/acord/acord_formatter.py:63-240 | Formatting fails only where the source raises. On success the output has exactly the eight tab keys, in order. |
| Formatter.FormatNotes | app/services/acord/acord_formatter.py:214 | The notes tab holds the remarks when they are truthy, and None otherwise. |
| Formatter.FormatOtherCoverage | app/services/acord/acord_formatter.py:197-212 | Any successful projection's other-coverage tab has its information block, with a truthy type of insurance, and exactly three limit rows. |
| Formatter.TypeOfInsuranceTruthy | app/services/acord/acord_formatter.py:200 | The other-coverage information block always shows a truthy type of insurance. |
| Formatter.CombinedSingleLimitTwice | app/services/acord/acord_formatter.py:146-147 | The "ea accident" limit always equals the combined single limit. |
| Formatter.TypeOfInsuranceDefault | app/services/acord/acord_formatter.py:200 | A falsy type of insurance is shown as "Other". |
| Formatter.CheckboxCellsYesNo | app/services/acord/acord_formatter.py:100-205 | Every checkbox cell of every block is "Yes" or "No". |
| Formatter.FormatIgnoresOtherKeys | app/services/acord/acord_formatter.py:77-238 | The output never depends on a key outside the ones read. |
| Formatter.UnformattedDataIgnored | app/services/acord/acord_formatter.py:77-238 | The `unformatted_data` key is never read. |
| Pipeline.Merge | app/services/acord/acord_pipeline.py:86-91 | `unformatted_data` is added only when the organizer output is non-empty, and then holds that output. |
| Pipeline.Process | app/services/acord/acord_pipeline.py:35-100 | A non-fillable form aborts. A failed extraction passes on its error, or the default. Empty data aborts with "No fields extracted". A success has `formatted_data` and `tokens_used`, and a failure has an error and no data. |
| Pipeline.FormattedFromCoverage | app/services/acord/acord_pipeline.py:74-97 | The formatted data is the projection of the direct-mapped coverage alone. |
| Pipeline.OrganizerIrrelevantToFormatting | app/services/acord/acord_pipeline.py:77-94 | Any two organizer behaviours, one failing and one succeeding say, give the same formatted data, so an organizer failure is not fatal. |
| Pipeline.IsAcordNotConsulted | app/services/acord/acord_pipeline.py:57 | Only `is_fillable` gates the pipeline; `is_acord` never matters. |
| Pipeline.NotFillableSkipsExtraction | app/services/acord/acord_pipeline.py:55-59 | A form that is not fillable is rejected without looking at the extraction. |
| TextMatching.NormalizeText | app/services/validation/text_matching.py:8-11 | None normalises to the empty string. |
| TextMatching.ReplacementsExpand | app/services/validation/text_matching.py:13-17 | The five chained `replace` calls act on each character once: `&` and `+` become " and ", and `/`, `_` and `-` become spaces. |
| TextMatching.CollapseSpaces | app/services/validation/text_matching.py:18 | After collapsing, no two spaces are adjacent. The result starts with a space iff the text starts with whitespace. |
| TextMatching.NormalizeShape | app/services/validation/text_matching.py:8-20 | The normalisation holds only `[a-z0-9 ]` and has no space at either end. |
| TextMatching.NormalizeEmpty | app/services/validation/text_matching.py:12-20 | The normalisation is empty exactly when the text holds no letter, digit, `&` or `+`. |
| TextMatching.DedupeDistinct | app/services/validation/text_matching.py:34-40 | The kept elements have pairwise different keys. |
| TextMatching.DedupeCovers | app/services/validation/text_matching.py:34-40 | Every key of the input is represented in the output. |
| TextMatching.DedupeFirst | app/services/validation/text_matching.py:34-40 | Each kept element is the first input element with its key. |
| TextMatching.DedupeOrder | app/services/validation/text_matching.py:34-40 | Kept elements appear in the order of their keys' first occurrences. |
| TextMatching.Candidates | app/services/validation/text_matching.py:23-46 | None or a blank value has no candidates. |
| TextMatching.CandidatesArePieces | app/services/validation/text_matching.py:42-46 | The fallback to the whole normalised text never adds anything: the candidates are exactly those of the split. |
| TextMatching.CandidatesDistinct | app/services/validation/text_matching.py:32-43 | The candidates are non-empty and pairwise distinct. |
| TextMatching.CandidatesMembers | app/services/validation/text_matching.py:32-43 | Every non-empty normalised piece is a candidate, and every candidate is one. |
| TextMatching.CandidatePartNonEmpty | app/services/validation/text_matching.py:36-40 | A piece that holds a letter, digit, `&` or `+` yields a candidate. |
| TextMatching.Jaccard | app/services/validation/text_matching.py:57-65 | The index lies between 0 and 1. It is 1 iff the sets are equal and positive iff they intersect. |
| TextMatching.TokenOverlap | app/services/validation/text_matching.py:49-65 | The score lies between 0 and 1. It is positive iff both sides have tokens and enough are shared, and it is then the Jaccard index. |
| TextMatching.TokenOverlapSymmetric | app/services/validation/text_matching.py:49-65 | The token score does not depend on argument order. |
| TextMatching.TokenOverlapSelf | app/services/validation/text_matching.py:49-65 | A text with tokens scores 1 against itself. |
| TextMatching.StemOverlap | app/services/validation/text_matching.py:68-90 | The score is 0 iff a side has no stem or no stem is shared; otherwise it is the Jaccard index of the stem sets. |
| TextMatching.StemOverlapSymmetric | app/services/validation/text_matching.py:74-90 | The stem score does not depend on argument order. |
| TextMatching.FuzzyThreshold | app/services/validation/text_matching.py:102-109 | The threshold is 0.70 up to 4 characters, 0.75 up to 10, and the configured one beyond. |
| TextMatching.FuzzySimilarity | app/services/validation/text_matching.py:93-111 | The result is 0 or the ratio, and the ratio only when it reaches the length-dependent threshold. A ratio at or above the threshold is always returned. |
| TextMatching.FuzzyPositiveBound | app/services/validation/text_matching.py:104-111 | A positive fuzzy score is at least 0.70, whatever the configured threshold. |
| ProductExtraction.Walk | app/services/validation/product_extraction.py:22-42 | Every collected value is non-empty and has no whitespace at either end. |
| ProductExtraction.WalkMembers | app/services/validation/product_extraction.py:22-42 | A value is collected iff it is the stripped form of a non-blank string leaf whose nearest enclosing key carries a hint, list elements counting under the key of their list. |
| ProductExtraction.WalkSound | app/services/validation/product_extraction.py:22-42 | Every collected value, at every position, is such a stripped hinted leaf. |
| ProductExtraction.WalkComplete | app/services/validation/product_extraction.py:22-42 | Every non-blank hinted leaf is collected, stripped. |
| ProductExtraction.NoHintNoNames | app/services/validation/product_extraction.py:40-42 | Nothing is collected from a tree in which no key carries a hint. |
| ProductExtraction.ScalarsAtRootIgnored | app/services/validation/product_extraction.py:33-44 | A string at the root, or any non-string scalar, yields nothing. |
| ProductExtraction.NoHintNoProducts | app/services/validation/product_extraction.py:8-54 | A payload in which no key carries a hint yields no product names. |
| ProductExtraction.HintedStringsCollected | app/services/validation/product_extraction.py:22-42 | A one-entry dict whose key carries a hint yields its non-blank string stripped, whether held directly or as the only element of a list. |
| ProductExtraction.ExtractProductNamesUnique | app/services/validation/product_extraction.py:44-54 | For each name ignoring case, the result keeps the first collected value in depth-first order. No two results are equal ignoring case. |
| ProductExtraction.ExtractProductNames | app/services/validation/product_extraction.py:44-54 | No two returned names are equal after lower-casing and stripping. |
| ProductExtraction.ProductNameHintUnreachable | app/services/validation/product_extraction.py:11-20 | The hint `product_name` never fires, because a normalised key holds no underscore. |
| Validation.FirstWhere | app/services/validation/validation_service.py:156-166 | The nested loops with `break` return the first element that satisfies the test, and none when no element does. |
| Validation.Best | app/services/validation/validation_service.py:187-200 | The scoring loop settles on nothing when no score is positive. Otherwise it picks the first position holding the maximal score. |
| Validation.BestUnique | app/services/validation/validation_service.py:187-200 | The first strict maximum is unique. |
| Validation.NormalizedProducts | app/services/validation/validation_service.py:115-119 | Every normalised product name is non-empty. |
| Validation.ExpandRules | app/services/validation/validation_service.py:126-131 | Only rules with candidates are expanded, in rule order, each with its own candidates. |
| Validation.ExpandRulesHas | app/services/validation/validation_service.py:126-131 | Every rule with candidates is expanded. |
| Validation.PairsFromRules | app/services/validation/validation_service.py:156-158 | Every compared pair comes from an expanded rule and one of its candidates. |
| Validation.PairsHas | app/services/validation/validation_service.py:156-158 | Every candidate of every expanded rule is compared, paired with its rule. |
| Validation.TripleFrom | app/services/validation/validation_service.py:169-172 | Every compared triple is a pair against a product. |
| Validation.ExactTier | app/services/validation/validation_service.py:156-166 | Tier 1 matches iff some candidate is a product name. The match is type exact with score 1.0. |
| Validation.ContainsTier | app/services/validation/validation_service.py:168-185 | Tier 2 matches iff some candidate and product contain one another. The match is type contains with score 0.9. |
| Validation.ScoredTier | app/services/validation/validation_service.py:187-251 | Tiers 3 to 5 accept the first maximal pair exactly when its positive score reaches the tier's threshold. |
| Validation.CascadeTiers | app/services/validation/validation_service.py:168-251 | A tier matches only when every earlier tier found nothing. Its match meets that tier's own threshold, and a fuzzy match scores at least 0.70. |
| Validation.CascadeNone | app/services/validation/validation_service.py:151-251 | The cascade finds nothing only when no pair is shared, none is contained and no fuzzy score is positive. |
| Validation.CascadeRule | app/services/validation/validation_service.py:151-251 | The matched rule is one of the rules given, and the matched candidate is one of that rule's candidates. |
| Validation.Cascade | app/services/validation/validation_service.py:151-251 | A match always has a positive score, and an exact match's candidate is one of the normalized products. |
| Validation.ValidateData | app/services/validation/validation_service.py:75-286 | A non-certificate or an empty certificate type is rejected early, with nothing checked. With no rule candidates the verdict is a rejection. The status is approved iff some tier matched. |
| Validation.ComparedIffCandidates | app/services/validation/validation_service.py:126-149 | The rules are compared iff at least one of them yields a product candidate. |
| Validation.ApprovalJustified | app/services/validation/validation_service.py:253-258 | An approval names a rule from the input and one of that rule's candidates. |
| Validation.ExactProductApproved | app/services/validation/validation_service.py:156-166 | A certificate with a type whose products include a candidate of one of the rules is approved, as an exact match. |
| Validation.NoEmptyComparisons | app/services/validation/validation_service.py:115-119 | Every compared product and candidate is non-empty, so tier 2 never matches through an empty string. |
| RulesNormalization.NormalizeRuleIdsSpec | app/services/rules/rules_normalization.py:6-22 | A non-empty id list is accepted iff its ids are positive and distinct, and it comes back as given. |
| RulesNormalization.NormalizeRuleIds | app/services/rules/rules_normalization.py:6-22 | An empty list is rejected, and an accepted list comes back unchanged. |
| RulesNormalization.IdsFromFirstOffender | app/services/rules/rules_normalization.py:13-20 | A rejected id list is rejected for its first offending id, with that id's error. |
| RulesNormalization.ReadId | app/services/rules/rules_normalization.py:71 | An integer converts to itself and a bool to 1 or 0. A string converts only when it holds a digit; any other value raises. |
| RulesNormalization.ReadIdNumericString | app/services/rules/rules_normalization.py:71 | A string holding a decimal integer, with any surrounding whitespace, converts to that integer, as `int()` does. |
| RulesNormalization.ReadIdBlankString | app/services/rules/rules_normalization.py:71 | An empty or all-whitespace string id raises. |
| RulesNormalization.ReadDraftActiveDefault | app/services/rules/rules_normalization.py:36 | A missing `is_active` defaults to active. |
| RulesNormalization.CheckBulkSpec | app/services/rules/rules_normalization.py:33-56 | A batch is accepted iff every element reads and the read batch is good. Good means non-blank fields, new ids and new lower-cased pairs. The drafts come back in input order. |
| RulesNormalization.CheckBulkFirstOffender | app/services/rules/rules_normalization.py:70-101 | A rejected batch fails on its first offending element, and every element before it is fine. |
| RulesNormalization.NormalizeBulkCreate | app/services/rules/rules_normalization.py:25-58 | An empty list is rejected. An accepted batch keeps the length and order of the input, with trimmed non-blank fields. |
| RulesNormalization.NormalizeBulkCreateComplete | app/services/rules/rules_normalization.py:25-58 | A creation batch is accepted iff it is non-empty and its read drafts form a good batch. |
| RulesNormalization.NormalizeBulkUpdate | app/services/rules/rules_normalization.py:61-103 | An empty list is rejected, and ids are checked before fields. An accepted batch keeps its ids, in order. |
| RulesNormalization.NormalizeBulkUpdateComplete | app/services/rules/rules_normalization.py:61-103 | An update batch is accepted iff it is non-empty, every id reads, and the drafts form a good batch. |
| RulesNormalization.NormalizeRuleFields | app/services/rules/rules_normalization.py:106-121 | A blank certificate type is rejected first, then a blank product name. An accepted result holds both fields trimmed. |
| RulesNormalization.NormalizeRuleFieldsIdempotent | app/services/rules/rules_normalization.py:106-121 | Normalising accepted fields again changes nothing. |
| RulesService.GetRule | app/services/rules/rules_service.py:298-315 | A rule is found iff its id is in the table, and it then reads back that row. Otherwise the error is "not found". |
| RulesService.Descending | app/services/rules/rules_service.py:317-328 | The ids are listed strictly largest first, each id of the set exactly once. |
| RulesService.ListRules | app/services/rules/rules_service.py:317-328 | Every rule is listed exactly once, latest id first. |
| RulesService.Insert | app/services/rules/rules_service.py:365-382 | The inserted row gets the next identity value and nothing else changes. The identity column stays fresh, and a pair with no clash keeps the pairs unique. |
| RulesService.Overwrite | app/services/rules/rules_service.py:439-457 | Only the updated row changes. The identity column stays fresh, and a pair that clashes with no other row keeps the pairs unique. |
| RulesService.Create | app/services/rules/rules_service.py:351-392 | Creation fails, leaving the table unchanged, iff the lower-cased pair is already taken. On success there is one new row, and the table stays valid. |
| RulesService.CreateRule | app/services/rules/rules_service.py:330-392 | A blank certificate type is rejected first, then a blank product name. Otherwise the trimmed fields are created. |
| RulesService.CreateThenGet | app/services/rules/rules_service.py:330-392 | A created rule reads back as it was returned, and its id was not in use. |
| RulesService.CreateThenDelete | app/services/rules/rules_service.py:466-500 | Deleting a rule just created gives back the earlier table rows, and the rule. |
| RulesService.Update | app/services/rules/rules_service.py:416-464 | An absent id is "not found". The update fails iff another row holds the pair. A failure leaves the table unchanged, and a success changes only that row. |
| RulesService.UpdateRule | app/services/rules/rules_service.py:394-464 | A blank certificate type is rejected first, then a blank product name. Otherwise the trimmed fields are applied. |
| RulesService.UpdateUnchanged | app/services/rules/rules_service.py:425-437 | Updating a rule to its own current fields keeps a valid table as it was, because the duplicate query excludes the rule itself. |
| RulesService.DeleteRule | app/services/rules/rules_service.py:466-500 | Deletion succeeds iff the id exists. It then removes exactly that row and returns its former contents. |
| RulesService.DeleteThenGet | app/services/rules/rules_service.py:466-500 | A deleted rule is gone. |
| RulesService.DeleteRulesBulk | app/services/rules/rules_service.py:14-74 | Bulk deletion is all or nothing. Bad ids, or any missing id listed in request order, leave the table unchanged. Otherwise exactly the listed rows go, and they come back in request order. |
| RulesService.InsertAllKeeps | app/services/rules/rules_service.py:135-166 | The insert loop keeps the identity column and the uniqueness of pairs, and fails only on a duplicate. |
| RulesService.InsertAllResults | app/services/rules/rules_service.py:135-166 | On success the loop returns one rule per draft, in order, numbered on from the identity counter. |
| RulesService.InsertAllRows | app/services/rules/rules_service.py:135-166 | On success the loop adds exactly one row per draft, at the ids it handed out, and keeps every other row. |
| RulesService.InsertAllSucceeds | app/services/rules/rules_service.py:135-166 | Given pairwise distinct pairs, the insert loop succeeds iff no draft's pair is already in the table. |
| RulesService.InsertAll | app/services/rules/rules_service.py:135-166 | A successful insert loop returns one rule per draft. |
| RulesService.CreateBatch | app/services/rules/rules_service.py:130-172 | Every rule is created, or none, and the table stays valid. |
| RulesService.CreateBatchSpec | app/services/rules/rules_service.py:130-172 | A batch with distinct pairs is created iff none of its pairs is in the table. The rules come back in order and every earlier row is kept. |
| RulesService.CreateRulesBulk | app/services/rules/rules_service.py:76-172 | An invalid payload passes on its validation error. A duplicate against the table leaves the table unchanged. |
| RulesService.CreateRulesBulkSucceeds | app/services/rules/rules_service.py:76-172 | Over a valid payload, bulk creation succeeds iff none of its pairs is already in the table. |
| RulesService.UpdateAllKeeps | app/services/rules/rules_service.py:259-290 | The update loop keeps the ids, the counter and the uniqueness of pairs, and fails only on a duplicate. |
| RulesService.UpdateAllSpec | app/services/rules/rules_service.py:259-290 | With distinct ids, a successful loop gives every listed rule its draft's fields and returns them in request order. Every other row is left alone. |
| RulesService.UpdateAllResponses | app/services/rules/rules_service.py:259-290 | A successful update loop answers every draft, in request order, with its id and its new fields. |
| RulesService.UpdateAllRows | app/services/rules/rules_service.py:259-290 | With distinct ids, a successful update loop writes every listed row and leaves every other row alone. |
| RulesService.UpdateAllSwapRejected | app/services/rules/rules_service.py:259-268 | The duplicate check sees updates made earlier in the same batch. A batch whose first rule takes the pair another listed rule still holds is rejected, even though that rule would have moved off it. |
| RulesService.UpdateAll | app/services/rules/rules_service.py:259-290 | A successful update loop returns one rule per draft. |
| RulesService.UpdateBatch | app/services/rules/rules_service.py:246-296 | The ids are looked up first; any missing id is reported in request order. Every rule is then updated, or none. |
| RulesService.UpdateBatchSpec | app/services/rules/rules_service.py:246-296 | A successful batch update with distinct ids returns the drafts in request order and wrote exactly those rows. |
| RulesService.UpdateRulesBulk | app/services/rules/rules_service.py:174-296 | An invalid payload passes on its validation error. Success keeps the id set and the counter, and the table stays valid. |
| UniversalExtractor.RadioBit | app/modules/universal/universal_extractor.py:309-310 | The radio test looks at bit 16 (0x8000) and nothing else (the Radio flag, section 12.7.4.2.4 of ISO 32000-1). |
| UniversalExtractor.KindOf | app/modules/universal/universal_extractor.py:300-313 | `/Tx` goes to text and `/Ch` to dropdowns. `/Btn` goes to radio buttons or checkboxes by the radio flag. Any other type is dropped. The read raises exactly for a `/Btn` whose flags are not an integer. |
| UniversalExtractor.ValueOr | app/modules/universal/universal_extractor.py:305-311 | A truthy value is kept, and a falsy one becomes "". |
| UniversalExtractor.OffNameReadsChecked | app/modules/universal/universal_extractor.py:313 | An unchecked box, whose /V is the name "/Off", reads as checked under the test as written. It reads as unchecked under the test as intended. |
| UniversalExtractor.CheckedDiffersOnlyOnOffName | app/modules/universal/universal_extractor.py:313 | The two tests differ only on "/Off". Missing, empty and "Off" values are unchecked under both. |
| UniversalExtractor.PickAt | app/modules/universal/universal_extractor.py:300-313 | With distinct names, a field of the kind sits in the group under its own name with its value, and a field of another kind is absent. |
| UniversalExtractor.PickDistinct | app/modules/universal/universal_extractor.py:295-320 | With distinct field names, every group has distinct names too. |
| UniversalExtractor.ExtractFields | app/modules/universal/universal_extractor.py:286-324 | The result is `{}` iff there are no fields or some read raises. Otherwise the four groups together hold no more entries than there are fields. |
| UniversalExtractor.ExtractFieldsRoutes | app/modules/universal/universal_extractor.py:300-320 | Every field lands in exactly the group its type and radio flag select, under its own name. Its value is `field_value or ""`; a checkbox is checked iff its value is truthy and not "Off", as written. Every group is a dict. |
| UniversalExtractor.ExtractFieldsIntended | app/modules/universal/universal_extractor.py:286-324 | With the intended checkbox test, the extraction gives `{}` in exactly the same cases, and the groups again hold no more entries than there are fields. |
| UniversalExtractor.GroupsSize | app/modules/universal/universal_extractor.py:300-320 | The field kinds exclude each other, so each field lands in at most one group. |
| UniversalExtractor.ExtractFieldsIntendedDiffers | app/modules/universal/universal_extractor.py:313 | The intended extraction keeps the text, radio and dropdown groups and the checkbox names. A checkbox whose `/V` is `/Off` is checked as written and unchecked as intended, and every other checkbox reads the same under both. |
| UniversalExtractor.ChooseText | app/modules/universal/universal_extractor.py:119-141 | The reader's text and page count are used iff the text is non-empty and its stripped length exceeds 50. Otherwise the OCR text and its page count are used. |
| UniversalExtractor.CleanLabel | app/modules/universal/universal_extractor.py:163 | A cleaned label holds no `[`, `]` or `.`. |
| UniversalExtractor.CleanLabelPointwise | app/modules/universal/universal_extractor.py:163 | The chained replacements clean each character on its own: brackets vanish and dots become spaces. |
| UniversalExtractor.Context | app/modules/universal/universal_extractor.py:152-173 | A blank text adds nothing, so the context is just the field blocks. Without form fields the context is just the text block. |
| UniversalExtractor.ContextOpensWithText | app/modules/universal/universal_extractor.py:155-157 | A text with content opens the context, under its header and followed by a blank line. |
| UniversalExtractor.BoxLineAt | app/modules/universal/universal_extractor.py:167-173 | Every checkbox has its own line in the checkbox block, reading CHECKED exactly when it is checked. |
| UniversalExtractor.FieldLineAt | app/modules/universal/universal_extractor.py:160-165 | Every text field has its own `name: value` line in the form-field block. |
| UniversalExtractor.DropMeta | app/modules/universal/universal_extractor.py:199-201 | Exactly the entries whose key is not document_type, success or error are kept. |
| UniversalExtractor.Shape | app/modules/universal/universal_extractor.py:193-204 | For a dict answer, `formatted_data` is `sections` when truthy, and otherwise every non-meta entry. The document type defaults to "Document". A non-dict answer is kept when truthy. |
| UniversalExtractor.Extract | app/modules/universal/universal_extractor.py:146-214 | The run fails for lack of input iff there is no text and no form fields. The AI's failure answer is returned only without form fields, and the form fields alone only with them. A success reports the page count used. |
| UniversalExtractor.ExtractAiRaises | app/modules/universal/universal_extractor.py:216-220 | An exception from the AI service becomes the extraction-failed message. |
| UniversalExtractor.ExtractFallback | app/modules/universal/universal_extractor.py:180-190 | When the AI answers without success, the result is the raw form fields if the PDF had any, and the AI's answer otherwise. |
| UniversalExtractor.ExtractSucceeds | app/modules/universal/universal_extractor.py:192-214 | A successful answer yields the shaped data with the answer's usage. |
| UniversalExtractor.ExtractPdf | app/modules/universal/universal_extractor.py:67-220 | A missing file is reported first. Otherwise the form fields and the chosen text go through the decision steps. |
| UniversalExtractor.ExtractPdfPrefersDirect | app/modules/universal/universal_extractor.py:119-128 | A PDF whose direct text is long enough never reaches OCR: the text and page count are the reader's. |
| Embedding.Normalize | app/services/ai/embedding_service.py:39-45 | The fitted vector always has the configured length. It keeps the input's prefix and pads the rest with zeros. |
| Embedding.NormalizeIdempotent | app/services/ai/embedding_service.py:39-45 | A vector already of the right length is kept, so fitting twice is fitting once. |
| Embedding.SafeText | app/services/ai/embedding_service.py:51-52 | The input sent is never empty: a blank text goes out as a single space, and anything else is stripped. |
| Embedding.SafeTextIdempotent | app/services/ai/embedding_service.py:51-52 | Cleaning a cleaned input changes nothing. |
| Embedding.BackoffClosedForm | app/services/ai/embedding_service.py:55-72 | The pauses are 1, 2, 4 and 8 seconds, then 10 seconds from the fifth on. |
| Embedding.TotalWaitBound | app/services/ai/embedding_service.py:54-72 | No pause exceeds 10 s, so the loop waits at most 10 s per retry. |
| Embedding.DefaultWait | app/services/ai/embedding_service.py:15-72 | With the default three retries, a batch that never succeeds waits 1 + 2 + 4 seconds. |
| Embedding.FirstAnswer | app/services/ai/embedding_service.py:56-66 | The answer taken is the first attempt at which the API answers; every earlier attempt failed. |
| Embedding.Finish | app/services/ai/embedding_service.py:63-66 | The answer is padded with zero vectors up to one per text, and every vector is fitted to the dimension. |
| Embedding.Attempts | app/services/ai/embedding_service.py:54-74 | The first answer is returned, fitted, after one pause per failed attempt. When every attempt fails, the result is zero vectors after exactly `MAX_RETRIES` pauses. |
| Embedding.EmbedBatch | app/services/ai/embedding_service.py:47-74 | An empty batch calls nothing. Otherwise there are at most `MAX_RETRIES` pauses on the backoff schedule and at least one vector per text, each of the configured length. |
| Vectorize.FullMatch | app/modules/vectorize/vectorize_service.py:47 | The scan accepts exactly the strings matching `[A-Za-z_][A-Za-z0-9_]*` in full. |
| Vectorize.IdentifierIsInert | app/modules/vectorize/vectorize_service.py:46-49 | An accepted name holds no space, quote, semicolon, dash, comma or parenthesis. |
| Vectorize.ValidateIdentifier | app/modules/vectorize/vectorize_service.py:46-49 | A name is accepted iff it is a string matching the pattern, and it is returned unchanged. A falsy value or a mismatch is an invalid name. |
| Vectorize.CollectTexts | app/modules/vectorize/vectorize_service.py:70-79 | The collected map has one entry per id: the stripped text of the last row with that id whose text is neither None nor blank. |
| Vectorize.FetchTexts | app/modules/vectorize/vectorize_service.py:51-81 | The three names are validated in order before the connection string. A missing table name is the first error, and a success carries the collected texts. |
| Vectorize.Ids | app/modules/vectorize/vectorize_service.py:87 | One stringified id per requested id, in order. |
| Vectorize.FoundMissingPartition | app/modules/vectorize/vectorize_service.py:90-91 | Every requested id, repeats included, is either found or missing, never both, and in request order. |
| Vectorize.SplitAgrees | app/modules/vectorize/vectorize_service.py:90-91 | The split depends only on which ids have a text. |
| Vectorize.Actions | app/modules/vectorize/vectorize_service.py:107-133 | There is one action per found id, with its text. `has_embedding` holds iff a vector exists at that position, and the embedding is present iff so. |
| Vectorize.Assemble | app/modules/vectorize/vectorize_service.py:90-154 | No found id gives a failure with zero counts and the "no rows" error. Otherwise success holds iff nothing failed, and the fetched count is the number of found ids. |
| Vectorize.VectorizeByIds | app/modules/vectorize/vectorize_service.py:83-154 | A successful run had a connection string. Each action carries the last usable text of its id. The missing ids are the requested ids without a text, in request order. |

## Left out

- **Reading files.** PDF parsing, page text and OCR (`PdfReader`, pdf2image,
  pytesseract) are left out. The reader's field dicts, page texts and page
  counts are inputs. An OCR result that is not a tuple, which gives page
  count 0, is folded into the OCR page-count input.
- **The universal extractor.** The `run_in_executor` race of `extract_pdf`
  is concurrency. Only the sequential text choice is modelled.
- **The universal extractor's error paths.**
  - An exception raised while reading fields or text is not modelled; only
    an exception from the AI service is.
  - The `model` and `extraction_method` labels of the result are constants,
    so they are not carried.
- **The language models.**
  - `json.loads` is a parameter; `json.dumps` is not modelled.
  - The stemmer and `SequenceMatcher.ratio` are function-typed parameters.
  - `round(…, 3)` of a score is the identity.
  - Scores are exact `real` ratios, not floats.
  - The organizers' fixed instruction text and the target-schema dump are
    not part of the prompt model. Only the filtered entries and the
    mappings block are.
- **The AI-first product extraction** (app/services/validation/validation_service.py:437-486)
  is a language-model call. Product names arrive as an input to the verdict.
- **The validation service's helpers.** The helper methods at
  app/services/validation/validation_service.py:288-435 are line-for-line
  copies of text_matching.py and product_extraction.py (with the class
  constants as parameters). They are modelled once, in TextMatching and
  ProductExtraction.
- **Persistence.** Document persistence, table schema lookup and the active
  rule query of the validation service are left out; the active rules are
  an input list.
- **SQL collation.** The SQL collation is replaced by ASCII lower-casing in
  the duplicate query.
- **Concurrency.** The non-atomic check-then-insert of `create_rule` under
  concurrent requests is not modelled, because each operation runs alone.
- **The rule table's unreachable branches.** An INSERT with no `OUTPUT`
  row, and an UPDATE or DELETE whose `rowcount` is 0 after the existence
  check, cannot happen against a single-user table, so they are not
  modelled.
- **Rollback.** Rollback restores the identity counter as well. SQL Server
  does not roll back identity values, so ids after a failed bulk create can
  differ from the model's.
- RulesNormalization.ReadId: a float id cannot occur, because the JSON
  model has no floats, so the truncation `int(2.7) == 2` is not modelled.
  Only ASCII digits count in a numeric string; Python's `int()` also reads
  other Unicode decimal digits.
- **Floats.** The JSON model has integers but no floats, so neither the
  falsiness of `0.0` under `bool()` nor `str()` of a float such as `1.5` is
  modelled.
- **The service's own validation.** The rules service repeats the payload
  validation inline instead of calling the normalization module. The model
  calls the normalization module, which has the same checks in the same
  order.
- Formatter.NameOnly: `str.isdigit()` is modelled for the ASCII digits
  only, so a string holding another Unicode digit counts as a name here.
- Formatter.AddressOnly: for the same reason, a string whose only digits
  are non-ASCII Unicode digits has no address here.
- **Text handling.**
  - `str.lower()` is modelled for ASCII only.
  - `str()` of a nested container uses a simplified repr without quote
    escaping.
- **The embedding settings.** Negative `EMBEDDING_DIMENSIONS` or
  `OPENAI_EMBEDDING_MAX_RETRIES` values are not modelled, because they are
  natural numbers. The model name, API key, timeout and client construction
  are configuration.
- **The vectorizer.**
  - Index creation, the OpenSearch client and the SQLAlchemy engine are
    I/O.
  - The bulk indexer is a parameter.
  - The `metadata`, `source` and `created_at` fields of an indexed
    document are not carried.
  - A `db_config` of None is modelled as `{}`, so the later `.get` on None
    in the document metadata is not reached.
- DirectMapper.DirectMapShape: the shape is stated only for a flat input
  and a table whose coverage paths all end at a leaf of the initial
  structure. The table is read from acord_field_mappings.json, which is
  not part of this model, so this is a precondition and not a fact about
  that file. A field value that is itself a dict, or a
  path that runs past a leaf, would change the shape.
- DirectMapper.DirectMapCoverage: does not state the value at a path when
  a later table entry writes along a path that is a prefix or an extension
  of it, or when the leaf is an `address` (the concatenation is stated for
  a single write by DirectMapper.SetPathGet).
- **extract_text_content.** `extract_text_content` in
  backend/services/pypdf_extractor.py and the singleton accessors
  (`get_…`) are I/O wrappers.
- **The HTTP layer.** Routes, controllers, response helpers, configuration
  loading and printing are out of scope.

## Findings

| source | as written | input that shows it | evidently intended | confidence | as-written member | corrected member |
|---|---|---|---|---|---|---|
| app/modules/universal/universal_extractor.py:313 | A checkbox is checked iff `field_value and field_value != "Off"`. | A checkbox whose `/V` is the PDF name `/Off` (how the reader returns an unchecked box) reads as checked (UniversalExtractor.OffNameReadsChecked). | The off state reads as unchecked, with or without the slash. | not executed; medium (depends on the reader returning names with their slash) | UniversalExtractor.CheckedAsWritten | UniversalExtractor.ExtractFieldsIntended |

`UniversalExtractor.ExtractFields` models the extraction as written, and
`UniversalExtractor.Extract` builds on it. `UniversalExtractor.ExtractFieldsIntended`
is the same extraction with the corrected test.
`UniversalExtractor.ExtractFieldsIntendedDiffers` proves that the two differ
only on checkboxes whose `/V` is `/Off`, which the corrected one reads as
unchecked. `UniversalExtractor.CheckedDiffersOnlyOnOffName` proves the same
of the two tests alone.
