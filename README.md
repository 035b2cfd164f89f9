# PII detector and redactor, modelled in Dafny

The system reads customer records one at a time. Each record holds a JSON payload
as text. `detect_and_redact` turns the payload into a redacted payload and a flag
that says whether the record held personally identifiable information (PII).
It works in four steps:

1. **Preprocessing.** The raw text is stripped of surrounding whitespace. If it
   starts and ends with a double quote, the outer quotes are removed and every
   `""` is collapsed into `"` (CSV quoting undone).
2. **Parsing.** The text is parsed as JSON. When parsing fails, the
   preprocessed text is returned with the flag down.
3. **Standalone rules.** The `phone`, `aadhar`, `passport` and `upi_id` fields
   are checked in that order. A field whose `str()` fully matches its regular
   expression is masked, and the flag is raised.
4. **Combinatorial signals.** `name` fires when it is non-blank. `email` fires
   when it is a well-formed address. `address` fires when it is non-blank and a
   `pin_code` key exists. `device_ip` fires when there is a `device_id` or an
   `ip_address` key. When two or more signals fire, the flag is raised and every
   signalled field is rewritten: the name and the e-mail address are masked, and
   the address, device id and IP address are replaced by fixed placeholders.

The model is split into these modules:

- `pytext.dfy` (module `PyText`): the Python string built-ins the detector
  relies on. These are `strip()`, `split()`, `split(sep)` with a one-character
  separator and the slices `s[:n]` and `s[-n:]`. Whitespace is the set
  `str.isspace` accepts. The module also defines `" ".join` and `sep.join`,
  which the detector never calls: they exist only to state that `split()` and
  `split(sep)` undo them.
- `patterns.dfy` (module `Patterns`): the five regular expressions, as
  predicates over the whole string, since each is applied with `fullmatch`.
- `values.dfy` (module `Values`): JSON scalar values and Python's `str()` of
  each.
- `masking.dfy` (module `Masking`): the six masking helpers and what they keep
  and hide.
- `detector.dfy` (module `Detector`): the preprocessing, a field-by-field
  definition of the redacted object (`RedactedPayload`) and of the flag
  (`PiiDetected`), and the imperative `DetectAndRedact` proved to compute them.
  It updates a local copy of the parsed map field by field through the same
  sequence of conditional assignments as the Python code. Its three phases are
  separate methods:
  - `RedactStandalone`: the four standalone rules;
  - `CollectSignals`: building the list of fired signals by appending;
  - `RedactCombined`: the masking above the threshold.
- `redaction_properties.dfy` (module `RedactionProperties`): what the redaction
  promises, as lemmas over `RedactedPayload` and `PiiDetected`.

`json.loads` is a parameter of `DetectAndRedact` (`parse: string ->
Option<Payload>`). `json.dumps` is represented by returning the redacted
mapping itself.

Two behaviours of the code may be surprising:

- One might expect the original input back on a parse failure. The code
  returns the preprocessed text: stripped, outer quotes removed and `""`
  collapsed (`detector_full_candidate_name.py:46-54`). `DetectAndRedact`
  returns `Unparsed(Preprocess(record))`.
- One might expect masked values to no longer match their patterns. That
  holds for phone, Aadhaar and passport numbers
  (`MaskedStandaloneDoesNotRematch`). It does not hold for UPI ids: a masked
  UPI id is still a UPI id (`MaskedUpiStillMatches`, `SecondPassUpi`). An id
  whose handle is two characters followed by `XXX` is even masked to itself
  (`UpiMaskCanBeIdentity`).

## Model

| member | source | states |
|---|---|---|
| Patterns.UpiIdParts | detector_full_candidate_name.py:12 | a full UPI match is a non-empty handle of `[a-zA-Z0-9._]`, one `@` and a non-empty run of letters, with no other `@` |
| Patterns.UpiIdAnySplit | detector_full_candidate_name.py:12 | any split point that fits the UPI pattern is the first `@`, so the string is a UPI id |
| Patterns.EmailAddressParts | detector_full_candidate_name.py:13 | a full e-mail match is handle, `@`, letters, `.`, and two or more lower-case letters, with exactly one `@` |
| Patterns.EmailAddressAnySplit | detector_full_candidate_name.py:13 | any pair of split points that fits the e-mail pattern makes the string an e-mail address |
| Patterns.EmailAddressOfParts | detector_full_candidate_name.py:13 | every local part, host and top-level domain of the right character classes forms a matching address |
| Patterns.HandleHasNoAt | detector_full_candidate_name.py:12-13 | no character class of the two patterns contains `@` |
| PyText.Prefix | detector_full_candidate_name.py:19 | `s[:n]` has length min(n, length of s) and is a prefix of `s` |
| PyText.Suffix | detector_full_candidate_name.py:19 | `s[-n:]` has length min(n, length of s) and is a suffix of `s` |
| PyText.StripLeftShape | detector_full_candidate_name.py:46 | `lstrip()` cuts exactly a whitespace run and leaves a suffix not starting with whitespace |
| PyText.StripRightShape | detector_full_candidate_name.py:46 | `rstrip()` cuts exactly a whitespace run and leaves a prefix not ending with whitespace |
| PyText.StripShape | detector_full_candidate_name.py:46 | `strip()` is empty iff the string is all whitespace; otherwise it is a middle part with non-whitespace ends and whitespace around it |
| PyText.Words | detector_full_candidate_name.py:36 | every token `split()` returns is non-empty and whitespace-free |
| PyText.WordsSkipsSpace | detector_full_candidate_name.py:36 | `split()` skips a leading whitespace character |
| PyText.WordsAfterSpaces | detector_full_candidate_name.py:36 | `split()` ignores any run of leading whitespace |
| PyText.WordsOfJoin | detector_full_candidate_name.py:36 | `split()` recovers the tokens joined by single spaces |
| PyText.WordsEmptyIffBlank | detector_full_candidate_name.py:88-89 | `split()` finds no token iff `strip()` is empty, so the name that fired its signal always has a token for `mask_name` |
| PyText.FirstWordStartsAtStripLeft | detector_full_candidate_name.py:36-40 | the first token starts with the first non-whitespace character |
| PyText.SplitOn | detector_full_candidate_name.py:28 | `split("@")` returns at least one part, no part holds `@`, and more than one part iff there is an `@` |
| PyText.SplitOnFirst | detector_full_candidate_name.py:28 | the first part ends at the first `@`, the rest is the split of what follows |
| PyText.SplitOnHead | detector_full_candidate_name.py:28 | `parts[0]` is everything before the first `@` |
| PyText.JoinSplitOn | detector_full_candidate_name.py:28 | joining the parts with `@` gives the string back |
| PyText.SplitOnAbsent | detector_full_candidate_name.py:28 | without `@` the split is the string alone |
| PyText.SplitOnOnce | detector_full_candidate_name.py:28 | with exactly one `@` the split gives the two sides |
| PyText.FirstIndex | detector_full_candidate_name.py:28 | the index found holds the separator and no earlier index does |
| Values.NatToStr | detector_full_candidate_name.py:59 | `str()` of a natural number is non-empty, all digits, without a leading zero |
| Values.NatToStrValue | detector_full_candidate_name.py:59 | the digits of `str(n)` denote `n` in decimal, which with no leading zero fixes the string |
| Values.IntIsPhoneNumber | detector_full_candidate_name.py:59 | an integer's `str()` matches the phone pattern iff 10^9 <= i < 10^10 |
| Values.IntIsAadharNumber | detector_full_candidate_name.py:63 | an integer's `str()` matches the Aadhaar pattern iff 10^11 <= i < 10^12 |
| Values.NonTextPatterns | detector_full_candidate_name.py:59-71 | integers, booleans and null never match the passport, UPI or e-mail pattern; booleans and null never match phone or Aadhaar |
| Values.NoAtInNumber | detector_full_candidate_name.py:71 | `str()` of an integer, boolean or null holds no `@` |
| Masking.MaskPhoneShape | detector_full_candidate_name.py:18-19 | the first two and last two characters are kept around six `X`; on a ten-digit number the length is kept and positions 2-7 are `X` |
| Masking.MaskAadharShape | detector_full_candidate_name.py:21-22 | the first four characters are kept before eight `X`; on a twelve-digit number the length is kept |
| Masking.MaskPassportShape | detector_full_candidate_name.py:24-25 | the first character is kept before seven `X`; on a passport number the length is kept |
| Masking.MaskHandleShape | detector_full_candidate_name.py:27-33 | the mask is at most two characters before the first `@`, `XXX@`, then the text up to the next `@` or the end |
| Masking.MaskHandleSingleAt | detector_full_candidate_name.py:27-33 | with exactly one `@` the mask is two characters of the local part, `XXX@` and the whole domain, unchanged |
| Masking.MaskUpiOfMatch | detector_full_candidate_name.py:27-29 | a matching UPI id is masked to two handle characters, `XXX@` and its bank name |
| Masking.MaskEmailOfMatch | detector_full_candidate_name.py:31-33 | a matching e-mail address is masked to two local characters, `XXX@` and its whole domain |
| Masking.MaskNameShape | detector_full_candidate_name.py:35-40 | the mask is 10 characters with two or more tokens and 4 with one; it shows only the first token's initial and the second token's initial at position 5 |
| Masking.MaskNameOfWords | detector_full_candidate_name.py:35-40 | for tokens joined by spaces the mask is initial + `XXX ` + second initial + `XXXX`, or initial + `XXX` for one token |
| Masking.MaskNameIgnoresLeadingSpace | detector_full_candidate_name.py:35-40 | leading whitespace does not change the name mask |
| Masking.MaskNameIgnoresLaterWords | detector_full_candidate_name.py:35-40 | tokens after the second do not change the mask |
| Masking.MaskedStandaloneDoesNotRematch | detector_full_candidate_name.py:18-25 | a masked phone, Aadhaar or passport number no longer matches its pattern |
| Masking.MaskedUpiStillMatches | detector_full_candidate_name.py:27-29 | a masked UPI id still matches the UPI pattern |
| Masking.MaskedHandle | detector_full_candidate_name.py:29 | the kept handle characters plus `XXX` are still handle characters |
| Masking.UpiIdOfParts | detector_full_candidate_name.py:12 | a non-empty handle, `@` and a non-empty run of letters form a UPI id |
| Detector.Overwrite | detector_full_candidate_name.py:60 | assigning an existing key keeps the key set, sets that key and leaves every other field alone |
| Detector.CollapseDoubleQuotes | detector_full_candidate_name.py:49 | collapsing `""` undoes CSV doubling of quotes |
| Detector.PreprocessCsvField | detector_full_candidate_name.py:46-49 | a payload written as a CSV-quoted field is preprocessed back to itself |
| Detector.StripOfNonBlankEnds | detector_full_candidate_name.py:46 | `strip()` leaves a string with non-whitespace ends unchanged |
| Detector.SignalFieldsNotStandalone | detector_full_candidate_name.py:58-85 | no field a signal reads is a standalone field |
| Detector.SignalsUpToAll | detector_full_candidate_name.py:75-85 | after the four checks the list holds each fired signal exactly once and no other, and its length is the number of fired signals |
| Detector.RedactStandalone | detector_full_candidate_name.py:58-73 | the keys are kept, each field is masked iff its `str()` fully matches its pattern, and the flag is set iff some rule fired |
| Detector.CollectSignals | detector_full_candidate_name.py:75-85 | the list holds exactly the fired signals, in check order, and its length is their number |
| Detector.RedactCombined | detector_full_candidate_name.py:87-99 | the keys are kept; the name and e-mail are masked and the address, device id and IP address replaced exactly for the fired signals |
| Detector.SignalsIgnoreStandalone | detector_full_candidate_name.py:75-85 | signals read after the standalone masking are the same as on the parsed object |
| Detector.StandaloneOnly | detector_full_candidate_name.py:87 | below the threshold the standalone masking is the whole redaction |
| Detector.CombinedAfterStandalone | detector_full_candidate_name.py:87-99 | from the threshold on, the combinatorial masking after the standalone one is the whole redaction |
| Detector.CombinedValueOfStandaloneField | detector_full_candidate_name.py:87-99 | the combinatorial masking leaves standalone fields alone |
| Detector.CombinedValueAgrees | detector_full_candidate_name.py:87-99 | a field's combinatorial value depends only on that field and on which signals fire |
| Detector.DetectAndRedact | detector_full_candidate_name.py:45-101 | on a parse failure the preprocessed text is returned with the flag down; otherwise the result is `RedactedPayload` and the flag is `PiiDetected` |
| RedactionProperties.RedactionKeepsKeys | detector_full_candidate_name.py:58-101 | redaction never adds or removes a field |
| RedactionProperties.UnruledFieldsKept | detector_full_candidate_name.py:87-101 | a field no rule or signal names keeps its value |
| RedactionProperties.PinCodeKept | detector_full_candidate_name.py:82-99 | `pin_code` is read but never rewritten |
| RedactionProperties.UnflaggedPayloadUnchanged | detector_full_candidate_name.py:56-99 | when the flag stays down the object is returned unchanged |
| RedactionProperties.StandaloneUnmatchedKept | detector_full_candidate_name.py:58-73 | when no standalone rule fires, every standalone field keeps its value |
| RedactionProperties.StandaloneFieldChangedIffMatched | detector_full_candidate_name.py:58-69 | a phone, Aadhaar or passport field changes iff its `str()` fully matches its pattern, and then becomes its mask |
| RedactionProperties.MaskedValueDiffers | detector_full_candidate_name.py:58-69 | a value whose `str()` matches differs from a masked string that does not |
| RedactionProperties.UpiFieldChangedOnlyIfMatched | detector_full_candidate_name.py:71-73 | the UPI field changes only if it matches, and a match becomes its mask |
| RedactionProperties.UpiMaskCanBeIdentity | detector_full_candidate_name.py:27-29 | a UPI id with a handle of two characters followed by `XXX` is masked to itself |
| RedactionProperties.IntegerPhone | detector_full_candidate_name.py:59-61 | an integer phone is masked, and fires the flag, iff it has exactly ten digits |
| RedactionProperties.SecondPassStandalone | detector_full_candidate_name.py:58-69 | a masked phone, Aadhaar or passport field does not match again on a second pass |
| RedactionProperties.SecondPassUpi | detector_full_candidate_name.py:71-73 | a masked UPI field matches again on a second pass |
| RedactionProperties.BelowThreshold | detector_full_candidate_name.py:87-99 | with fewer than two signals every non-standalone field is kept, and the flag is raised only by a standalone rule |
| RedactionProperties.AboveThreshold | detector_full_candidate_name.py:87-99 | with two or more signals the flag is raised and each fired signal's field is masked or replaced by its placeholder |
| RedactionProperties.NullNameSignals | detector_full_candidate_name.py:78-79 | a null name (`str()` is `None`) fires the name signal |
| RedactionProperties.DeviceIdOnly | detector_full_candidate_name.py:84-87 | a lone device id is one signal: nothing changes and the flag stays down |
| RedactionProperties.DeviceIdAndName | detector_full_candidate_name.py:78-99 | a device id with a non-blank name: the device id is replaced, the name masked, the flag raised |
| RedactionProperties.AadharNearMissKept | detector_full_candidate_name.py:63-65 | an Aadhaar field that does not match is kept, and alone it does not raise the flag |
| RedactionProperties.FourteenDigitsNotAadhar | detector_full_candidate_name.py:10 | fourteen digits are not an Aadhaar number |
| RedactionProperties.PhoneAndNameExample | detector_full_candidate_name.py:58-99 | a phone next to a name: the phone is masked, the name kept, the flag raised |
| RedactionProperties.NameAndEmail | detector_full_candidate_name.py:78-91 | a two-token name with a well-formed e-mail address: both are masked and the flag is raised |
| RedactionProperties.NameAndEmailMasked | detector_full_candidate_name.py:87-91 | an object holding just a signalling name and e-mail address has both masked |
| RedactionProperties.TwoTokenName | detector_full_candidate_name.py:35-37 | two tokens joined by a space mask to their two initials |
| RedactionProperties.WellFormedEmail | detector_full_candidate_name.py:31-33 | an address built from its parts matches the pattern and keeps its domain through the mask |
| RedactionProperties.AddressAndPinCodeExample | detector_full_candidate_name.py:82-87 | an address with its postal code is a single signal: the object is unchanged and the flag stays down |
| RedactionProperties.LoneQuotePreprocessed | detector_full_candidate_name.py:46-49 | a lone `"` is both quote-prefixed and quote-suffixed, and preprocesses to the empty string |

## Left out

- The CSV input and output, the argument handling, the column detection and the
  row loop (`detector_full_candidate_name.py:103-135`) are file plumbing and are
  not modelled.
- The JSON grammar of `json.loads` is not modelled. Parsing is a parameter that
  gives an object or nothing.
- The output formatting of `json.dumps` is not modelled: separators, key order
  and `ensure_ascii` escaping. The redacted mapping itself is the result.
- JSON top levels other than objects are not modelled. On a list, string or
  number, the `in` tests at lines 59-84 do element or substring tests, or
  raise an uncaught `TypeError`. The parameter `parse` gives only objects.
- Floats, nested lists and nested objects as field values are not modelled,
  nor is Python's float formatting under `str()`. Values are strings,
  integers, booleans and null.
- `\d` is read as the ASCII digits `[0-9]`; Python's Unicode digits are not
  modelled. The letter classes are ASCII, as in the patterns themselves.
- `\b` at both ends of the phone, Aadhaar and passport patterns, and at the
  end of the UPI pattern, is not
  modelled: under `fullmatch` the first and last characters are word
  characters, so it always holds.
- The dict that lines 52-99 update in place is modelled by rebinding a local
  map value. The dict has no other reference in that code, so no aliasing
  is lost.
- `str(record)` at line 46 is the identity on the string records the model
  takes.
- The masking helpers raise in Python on inputs the detector never gives
  them: an empty passport string, a value without `@`, or a name without a
  token. Their `requires` clauses exclude these inputs, and every call site
  proves the clause holds.
