# Appointment tracker: extraction and validation core

A Dafny model of the deterministic logic inside a poller. The poller screenshots
the Tokyo driving-licence appointment page, asks a vision model to list the open
slots as JSON, validates that JSON, and reports what it found. The model covers:

- `extractJSON`: removes markdown code fences from the model's reply with the
  global regex ```` /```json\s*|\s*```/g ````, trims the result, and keeps the span
  from the first `[` to the last `]` when there is one. The replace is modelled
  as the regex engine's left-to-right scan over non-overlapping matches. The
  first alternative is tried before the second. A fence preceded by whitespace
  is taken by the second alternative, which leaves the word `json` behind.
- The record schema (`AppointmentSchema`, `AnalysisSchema`). It is written
  directly over a small `JsonValue` datatype:
  - a closed list of three test centres;
  - a JSON boolean `is29Country`;
  - a date of the shape `^\d{4}-\d{2}-\d{2}$`;
  - a closed list of three applicant categories.

  Array validation is all-or-nothing.
- The validation tail of both `analyzeScreenshot` variants. It runs text →
  `extractJSON` → `JSON.parse` → `safeParse` and gives the records or `[]`.
  `JSON.parse` is the parameter `parse: string -> Option<JsonValue>`; `None`
  stands for a thrown `SyntaxError`.
- `checkAppointments`: what one cycle returns, and the lines it logs on success.
- The bottom-anchored clip rectangle, the sanitised timestamp, and the
  screenshot path.

Strings are `seq<char>` of Unicode scalar values. JavaScript strings are UTF-16.
Every character the regexes and `trim` test for is in the Basic Multilingual
Plane, so the two readings agree on what is matched and what is kept.
A `char` cannot be a lone surrogate, so a JavaScript string holding one
has no model. Such a string could come in the reply text, or from a `\ud800`
escape that `JSON.parse` decodes. This changes no verdict: in a schema field
such a value is rejected by the enums and by the date pattern, whose accepted
strings are all listed or ASCII, and in any other key it is stripped.

A few definitions are not in the source. They are independent definitions
used to state contracts:

- `Schema.ToJson` encodes a record as JSON.
- `Report.ParseReportLine` reads a report line back.
- `Schema.MatchesWhole` is an anchored matcher for the date regex, written
  atom by atom.

Module layout: `Wrappers` (Option), `Text` (whitespace, trim, index search,
decimal numbers), `Extraction`, `Schema`, `Analysis`, `Capture`, `Report`.

Two facts about the code shape the model:

- The cycle never deletes its screenshot: the `deleteFile` call at
  script.js:161 is commented out.
- script.js's own `captureScreenshot` takes a full-page screenshot; the clip
  rectangle exists only in utils/screenshotUtils.js.

## Model

| member | source | states |
|---|---|---|
| Text.Trim | script.js:49 | the result is the input minus its leading and trailing whitespace (the same set as `\s`); it is empty exactly when the input is all whitespace; otherwise it starts and ends with non-whitespace |
| Text.TrimOfPadded | utils/analysisUtils.js:6 | trimming is determined by its characterisation: any non-whitespace-bounded core between whitespace runs is what `trim` returns |
| Extraction.FenceMatchAt | script.js:49 | one attempt of the fence regex at the start of the text: a match is at least the three backticks long and fits in the text; what it matches is stated by FenceMatchAtMeaning |
| Extraction.StripFences | script.js:49 | the global replace of fence matches by the empty string never lengthens the text; this length bound is its whole contract, and its meaning is stated by FenceMatchAtMeaning, ReplaceFences, StripFencesOfFenceFree and StripFencesOfFencedText |
| Extraction.FenceMatchAtMeaning | script.js:49 | a fence match starts at a position exactly when the text there opens with "```json" (the match then takes all following whitespace) or a whitespace run is followed by "```" (the match ends with that fence) |
| Extraction.ReplaceFences | script.js:49 | the scan over `lastIndex`, dropping each match and copying unmatched characters, computes the global replacement |
| Extraction.StripFencesOfFenceFree | script.js:49 | text with no "```" in it is left unchanged by the replace |
| Extraction.MatchArray | script.js:52-54 | `/\[[\s\S]*\]/` matches iff some `[` precedes some `]`, and the match runs from the first `[` to the last `]` |
| Extraction.ExtractJson | utils/analysisUtils.js:5-9 | the result is a contiguous substring of the cleaned text that neither starts nor ends with whitespace; with a bracket pair it is the first-`[`-to-last-`]` span; without one it is the whole cleaned text |
| Extraction.ExtractJsonScript | script.js:47-59 | the multi-statement `extractJSON` returns the same string as the one-expression version for every input |
| Extraction.StripFencesOfFencedText | script.js:48-49 | for fence-free `s`, removing the fences of "```json\n" + s + "\n```" gives `s` trimmed: the opening fence takes the leading whitespace and the closing fence the trailing whitespace |
| Extraction.ExtractJsonFenceTransparent | script.js:47-59 | for fence-free `s`, `extractJSON` of the fenced text equals `extractJSON(s)` |
| Schema.IsDate | utils/constants.js:11 | the anchored date regex, matched atom by atom, accepts exactly the 10-character strings of 4 ASCII digits, `-`, 2 digits, `-`, 2 digits |
| Schema.DateWithoutCalendarCheck | utils/constants.js:11 | "2025-13-99" is accepted: the pattern checks digit positions only, with no calendar check |
| Schema.DateNeedsPadding | utils/constants.js:11 | "2025-5-23" is rejected: month and day must have two digits |
| Schema.ValidateAppointment | utils/constants.js:8-17 | a value validates only if it is an object whose four fields have the demanded JSON types and allowed values, and the record then carries those values unchanged; every such object validates to its record |
| Schema.ValidateToJson | utils/constants.js:8-17 | a well-formed record written as a JSON object validates back to itself |
| Schema.ValidateIgnoresExtraKeys | utils/constants.js:8-17 | keys other than the four schema fields do not affect the verdict or the record |
| Schema.RejectedRecords | utils/constants.js:9-16 | null, an array, a string "true" for `is29Country`, an unknown location, and a missing `date` are all rejected |
| Schema.ValidateAll | utils/constants.js:19 | the batch validates iff every element does; then the output has the same length and order and each record is its element's |
| Schema.ValidateAnalysis | utils/constants.js:19 | a non-array is rejected, `[]` is accepted, one invalid element rejects the whole batch, and accepted records are well-formed and describe their elements |
| Analysis.ValidateReply | utils/analysisUtils.js:56-58 | a parse failure, a non-array or any invalid element gives `[]`; otherwise the result has one well-formed record per parsed element, in order |
| Analysis.WholeBatchOrNothing | utils/analysisUtils.js:58 | the result is `[]` or stands for the entire parsed array, never a filtered subset |
| Analysis.AnalyzeScreenshot | utils/analysisUtils.js:11-62 | a failed model call or a null content yields `[]`; otherwise the result is the validation tail's |
| Analysis.AnalyzeScreenshotScript | script.js:133-150 | only a failed model call escapes (it throws); a null content yields `[]`; otherwise the result is the same as the utils variant's |
| Analysis.EmptyArrayReply | utils/analysisUtils.js:56-58 | a reply that parses to `[]` gives no appointments |
| Analysis.SingleRecordReply | utils/analysisUtils.js:56-58 | a reply that parses to a one-element array holding a valid record gives exactly that record |
| Analysis.FencedReplyAnalysedAlike | script.js:136-138 | a fence-free reply and its markdown-fenced form are analysed to the same records |
| Capture.ClipRegion | utils/screenshotUtils.js:24-30 | `x = 0`, width is the page's scroll width, height is 2800, `y + height` is the page height, and `y < 0` exactly when the page is shorter than 2800 (no clamping) |
| Capture.SanitizeTimestamp | utils/screenshotUtils.js:32 | the length is kept; every `:` and `.` becomes `-`; every other character is unchanged; no `:` or `.` remains |
| Capture.SanitizeIdempotent | script.js:77 | sanitising a sanitised timestamp changes nothing |
| Capture.ScreenshotName | utils/screenshotUtils.js:33 | the name is "screenshot-", then the sanitised timestamp, then ".png" |
| Capture.ScreenshotNameDot | script.js:77-78 | the only `.` in the file name is the one before `png` |
| Capture.JoinPath | utils/screenshotUtils.js:33 | POSIX `path.join` of a normal-form absolute directory and one segment (not empty, not `.` or `..`, no `/`) is the directory, one `/`, then the segment, and that `/` is the last one in the result |
| Capture.JoinPathIsNormal | utils/screenshotUtils.js:33 | the joined path is again in normal form, so `path.join` has nothing left to normalise and the plain concatenation is its result |
| Capture.ScreenshotPath | utils/screenshotUtils.js:33 | the path is the screenshots directory, a separator, then the file name, which is its last path component |
| Report.ReportLine | script.js:168 | the line starts with `(i+1). date | ` and ends with `Yes` exactly when `is29Country` holds |
| Report.ReportFieldsRoundTrip | script.js:168 | the `date | location | type | 29-Country: …` part of a line determines the whole record |
| Report.ReportLineRoundTrip | script.js:168 | a report line determines both its index and the record it reports |
| Report.ReportLines | script.js:167-169 | one line per appointment, line `i` reporting appointment `i` |
| Report.CycleLog | script.js:163-170 | no appointments logs "No appointments available"; otherwise a count line comes first, then one report line per appointment |
| Report.CycleLogRecoversAppointments | script.js:166-169 | every appointment of a cycle can be read back from its log line |
| Report.CheckAppointments | script.js:153-177 | a capture or model-call failure yields `[]`; otherwise the analysed list is returned unchanged (equal to the utils `analyzeScreenshot`), and the success log is `CycleLog` of it |
| Report.ReportExample | script.js:168 | the sample record in the model prompt (script.js:104-111) is reported as `1. 2025-05-23 | 府中試験場 | 29の国･地域の方 | 29-Country: Yes` |

## Left out

- Browser automation (launch, navigation, the `networkidle2` wait, the dimension query, PNG rendering, closing). These are foreign calls. Page width and height are plain parameters.
- The chat-completion request: the prompt, the model name, base64 image encoding and `temperature`. This is an external API. Its outcome is the `ModelReply` parameter.
- `JSON.parse`: left abstract as a parameter. zod's error formatting (script.js:141) is not modelled.
- utils/fileUtils.js and the copies of its helpers in script.js: filesystem I/O only. `deleteFile` is never called in script.js (the call at script.js:161 is commented out). The code that calls the utils variants of `captureScreenshot` and `analyzeScreenshot` is not part of this model.
- `setInterval` polling, overlapping cycles, and the SIGINT/SIGTERM handlers: timers, concurrency and process lifecycle.
- Clock reads: the ISO timestamp is a parameter. The `toLocaleString` "Checking appointments..." line and all `console.error` messages are not modelled; only the success-path report lines are.
- utils/config.js is not part of this model.
- Capture.JoinPath: models POSIX `path.join` only, with `/` as the separator; on Windows `path.join` uses `\`. It covers only a directory in normal form (`IsNormalDir`: absolute, not the root, no empty, `.` or `..` segment) and a name that is one segment (`IsSegment`). That is what the source supplies: `path.join(process.cwd(), "screenshots")` and a name starting with `screenshot-`. Relative directories, the root, and the names `""`, `.` and `..`, which `path.join` would normalise, are not modelled.
- Capture.ScreenshotPath: carries the same POSIX separator and the same restriction on the directory through JoinPath, and needs a timestamp without `/`, as an ISO timestamp is.
- Extraction.StripFences: its own ensures is only the length bound. The full behaviour of the replace is stated in the lemmas about it, so that the recursive definition stays cheap to unfold.
