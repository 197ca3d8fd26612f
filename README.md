# secrets-manager: search-term, error-message and project-field rules in Dafny

This project models the deterministic string and collection logic of the
secrets-manager terminal tool, a Textual front end over Google Cloud Secret
Manager and Resource Manager:

- `format_error_message` (`secrets_manager/utils/helpers.py`), which truncates
  long backend error messages for display and appends `" ..."`;
- `sanitize_project_id_search` (same file), which turns whatever the user types
  into the project search box into a string over the project-id alphabet
  `[a-z0-9-]`: it lower-cases the text, keeps letters, digits and `-`, turns
  `_` and space into `-`, drops everything else, and then runs
  `while "--" in s: s = s.replace("--", "-")`;
- the field rules of the `GCPProject` model
  (`secrets_manager/models/gcp_projects.py`): the `project_id` pattern
  `^[a-z][a-z0-9-]{5,29}$`, the 4 to 30 character bound on `display_name`, the
  `validate_labels` validator, and the text produced by `__str__`.

Files:

- `wrappers.dfy` — `Option` (Python's `None`) and `Result` (a return value or a raised error).
- `ascii.dfy` — ASCII character classes standing for `str.isalnum`, `str.lower`, and the id alphabet.
- `helpers.dfy` — module `Helpers`: `FormatErrorMessage`, the method
  `SanitizeProjectIdSearch` with its `while` loop, and the lemmas about them.
  The loop is proved against `Squeeze`, an independent definition of "collapse
  every run of hyphens into one": the invariant is that one
  `replace("--", "-")` call does not change what `Squeeze` yields.
- `gcp_projects.dfy` — module `GcpProjects`: the id pattern as a
  character-by-character matcher with a proved closed form, the label
  validator as a `for` loop over `(key, value)` pairs in dict order, proved
  equal to the specification function `CheckLabels`, the construction of a
  project, and `__str__`.
- `project_search.dfy` — module `ProjectSearch`: how the sanitizer and the id
  pattern relate. The app writes the sanitized text back into the search box
  (`app.py:66-69`).

Points where the model follows the code rather than its comments:

- The comment beside the `project_id` pattern says "no trailing hyphen". The
  pattern accepts one (`ProjectIdTrailingHyphenAccepted`), and the model
  keeps the pattern as written.
- `format_error_message` guards with truthiness. So `None` and `0` both leave
  the message unchanged. A negative bound is truthy and slices from the end,
  as Python's `message[:n]` does.
- The label format check is written as `not t.isalnum() and not all(c in "-_"
  for c in t if not c.isalnum())`. It is modelled literally
  (`FormatRejected`), and it is proved to reject exactly the texts that hold a
  character outside `[A-Za-z0-9_-]`. So the empty key passes, and so do
  upper-case letters.
- A valid project id may contain `--`, but the search sanitizer always
  collapses it. Such an id can never be typed into the search box as it is
  (`DoubleHyphenProjectIdIsRewritten`).

## Model

| member | source | states |
|---|---|---|
| `Helpers.PyPrefix` | secrets_manager/utils/helpers.py:10 | Python's `s[:n]`: a prefix of `s` of length `min(n, len(s))` for `n >= 0`, of length `max(0, len(s) + n)` for negative `n` |
| `Helpers.FormatErrorMessage` | secrets_manager/utils/helpers.py:3-11 | `None` or `0` leaves the message unchanged; a message no longer than a positive bound is unchanged; a longer one becomes its first `max_length` characters plus `" ..."`, of length exactly `max_length + 4`; with a positive bound the result never exceeds `max_length + 4`; a negative bound cuts from the end |
| `Helpers.FormatErrorMessageShape` | secrets_manager/utils/helpers.py:8-11 | for every bound the result is either the message itself or a prefix of it, proper unless the message is empty, followed by `" ..."` |
| `Ascii.ToLower` | secrets_manager/utils/helpers.py:29 | `c.lower()` on ASCII: an upper-case letter becomes the lower-case letter 32 code points up, anything else is unchanged; the result is never upper-case and is alphanumeric exactly when the input is |
| `Ascii.LowerString` | secrets_manager/utils/helpers.py:29 | `search_term.lower()`: the same length, each character lowered |
| `Ascii.IsAlnumString` | secrets_manager/models/gcp_projects.py:59 | `t.isalnum()`: false for `""`, otherwise true exactly when every character is an ASCII letter or digit (a definition, no contract) |
| `Helpers.Kept` | secrets_manager/utils/helpers.py:36 | the generator's filter `c.isalnum() or c in "-_ "` (a definition, no contract) |
| `Helpers.Replacement` | secrets_manager/utils/helpers.py:34 | the generator's map `c if c.isalnum() or c == "-" else "-"` (a definition, no contract) |
| `Helpers.Translate` | secrets_manager/utils/helpers.py:33-37 | the join over the filtered characters: no longer than its input |
| `Helpers.TranslateAppend` | secrets_manager/utils/helpers.py:33-37 | the join works character by character: translating `a + b` is translating `a` then `b` |
| `Helpers.TranslateOverIdAlphabet` | secrets_manager/utils/helpers.py:33-37 | on text without upper-case letters every output character is in `[a-z0-9-]` |
| `Helpers.TranslateIdentity` | secrets_manager/utils/helpers.py:33-37 | text already over `[a-z0-9-]` passes through unchanged |
| `Helpers.CleanedOverIdAlphabet` | secrets_manager/utils/helpers.py:29-37 | after lowering and the join, the text is over `[a-z0-9-]` and no longer than the input |
| `Helpers.CleanedAppend` | secrets_manager/utils/helpers.py:29-37 | lowering and the join together work character by character |
| `Helpers.CleanedCharRule` | secrets_manager/utils/helpers.py:29-37 | per character: upper-case letters are lowered; lower-case letters, digits and `-` are kept; `_` and space become `-`; every other character is dropped |
| `Helpers.SanitizedDropsSpecials` | secrets_manager/utils/helpers.py:33-37 | a term made only of dropped characters sanitizes to `""` |
| `Helpers.HasDoubleHyphen` | secrets_manager/utils/helpers.py:40 | `"--" in s`: some position holds `-` followed by `-` (a definition, no contract) |
| `Helpers.ReplaceDoubleHyphen` | secrets_manager/utils/helpers.py:41 | `s.replace("--", "-")`, scanning left to right without overlap: no longer than `s`, same first character, keeps the alphabet `[a-z0-9-]` |
| `Helpers.ReplaceShrinks` | secrets_manager/utils/helpers.py:40-41 | on a string containing `--`, one replacement makes it strictly shorter, so the loop terminates |
| `Helpers.Squeeze` | secrets_manager/utils/helpers.py:39-41 | reference meaning of "remove consecutive hyphens": no longer than its input, same first character, keeps the alphabet |
| `Helpers.SqueezeCons` | secrets_manager/utils/helpers.py:39-41 | collapsing `c` prefixed to `x` drops `c` exactly when both `c` and the head of `x` are hyphens |
| `Helpers.SqueezeNoDoubleHyphen` | secrets_manager/utils/helpers.py:40-43 | after collapsing, the text contains no `--` |
| `Helpers.SqueezeFixed` | secrets_manager/utils/helpers.py:40-41 | a string without `--` is unchanged by collapsing, so the loop's result when it exits is the collapsed text |
| `Helpers.SqueezeReplace` | secrets_manager/utils/helpers.py:40-41 | one `replace("--", "-")` does not change the collapsed text; this is the loop invariant |
| `Helpers.Cleaned` | secrets_manager/utils/helpers.py:29-37 | the text after the lowering assignment and the join, before the loop; its properties are the `Cleaned…` lemmas (a definition, no contract) |
| `Helpers.Sanitized` | secrets_manager/utils/helpers.py:14-43 | what the function returns: `Cleaned` followed by collapsing hyphen runs; its properties are the `Sanitized…` lemmas and the method's contract (a definition, no contract) |
| `Helpers.SanitizeProjectIdSearch` | secrets_manager/utils/helpers.py:14-43 | the method with the `while` loop returns `Squeeze(Cleaned(term))`; the result is over `[a-z0-9-]`, contains no `--` and is no longer than the term |
| `Helpers.SanitizedShape` | secrets_manager/utils/helpers.py:21-43 | for every term the result is over `[a-z0-9-]`, has no `--`, and is no longer than the term |
| `Helpers.SanitizedFixedPoint` | secrets_manager/utils/helpers.py:29-43 | a term comes back unchanged if and only if it is over `[a-z0-9-]` and has no `--` |
| `Helpers.SanitizedIdempotent` | secrets_manager/utils/helpers.py:29-43 | sanitizing twice gives the same as sanitizing once |
| `Helpers.SanitizedHyphensOnly` | secrets_manager/utils/helpers.py:29-43 | `"---"` becomes `"-"` (a case from the unit tests) |
| `Helpers.SanitizedSpecialsOnly` | secrets_manager/utils/helpers.py:29-43 | `"!@#$%"` becomes `""` (a case from the unit tests) |
| `Helpers.SanitizedSingleSpace` | secrets_manager/utils/helpers.py:29-43 | `" "` becomes `"-"` (a case from the unit tests) |
| `Helpers.SanitizedValidUnchanged` | secrets_manager/utils/helpers.py:29-43 | `"test-123-xyz"` is returned unchanged (a case from the unit tests) |
| `GcpProjects.MatchIdCharRepeat` | secrets_manager/models/gcp_projects.py:19 | the part `[a-z0-9-]{lo,hi}` of the pattern, matched one character at a time against the whole text; a match has between `lo` and `hi` characters |
| `GcpProjects.MatchesProjectIdPattern` | secrets_manager/models/gcp_projects.py:19 | the full pattern `^[a-z][a-z0-9-]{5,29}$`; a matching id has 6 to 30 characters and starts with a lower-case letter |
| `GcpProjects.MatchIdCharRepeatIff` | secrets_manager/models/gcp_projects.py:19 | the matcher for `[a-z0-9-]{lo,hi}` accepts exactly the texts of `lo` to `hi` characters, all from `[a-z0-9-]` |
| `GcpProjects.ProjectIdPatternIff` | secrets_manager/models/gcp_projects.py:17-21 | an id matches the pattern if and only if it has 6 to 30 characters, its first is a lower-case letter and the rest are from `[a-z0-9-]` |
| `GcpProjects.ProjectIdTrailingHyphenAccepted` | secrets_manager/models/gcp_projects.py:19-20 | `"valid-"` matches, despite the comment that claims trailing hyphens are rejected |
| `GcpProjects.ProjectIdLeadingDigitRejected` | secrets_manager/models/gcp_projects.py:19 | `"123invalid"` does not match |
| `GcpProjects.FormatRejected` | secrets_manager/models/gcp_projects.py:59-65 | the format test exactly as written for the key at line 59 and for the value at line 65: `not t.isalnum() and not all(c in "-_" for c in t if not c.isalnum())` (a definition; its meaning is `FormatRejectedIff`) |
| `GcpProjects.FormatRejectedIff` | secrets_manager/models/gcp_projects.py:59 | the literal format test rejects a key or value exactly when it holds a character that is neither alphanumeric nor `-`/`_`; `""` passes |
| `GcpProjects.EntryError` | secrets_manager/models/gcp_projects.py:57-68 | an entry raises nothing exactly when key and value each have at most 63 characters of `[A-Za-z0-9_-]`; otherwise the checks run in the source's order and the error names the offending text: a key holding a character outside `[A-Za-z0-9_-]` gives an invalid-key-format error, else a key over 63 characters gives key-too-long, else a value with a bad character gives invalid-value-format, else a value over 63 characters gives value-too-long |
| `GcpProjects.FirstEntryError` | secrets_manager/models/gcp_projects.py:57-68 | the error of the first entry, in dict order, whose checks fail; its meaning is `FirstEntryErrorSpec` (a definition, no contract) |
| `GcpProjects.CheckLabels` | secrets_manager/models/gcp_projects.py:57-73 | what `validate_labels` returns or raises: the first entry error, else too-many-labels above 64 entries, else the labels; a success returns the input unchanged with at most 64 entries |
| `GcpProjects.ValidateLabels` | secrets_manager/models/gcp_projects.py:54-73 | the `for` loop with early raises and the count check computes `CheckLabels` |
| `GcpProjects.FirstEntryErrorSpec` | secrets_manager/models/gcp_projects.py:57-68 | no entry error if and only if every entry passes; otherwise the error is that of an entry all of whose predecessors pass |
| `GcpProjects.CheckLabelsAccepts` | secrets_manager/models/gcp_projects.py:57-73 | labels are accepted if and only if every key and value passes and there are at most 64 entries; accepted labels are returned unchanged |
| `GcpProjects.CheckLabelsFirstError` | secrets_manager/models/gcp_projects.py:57-71 | "too many labels" is raised if and only if every entry passes and there are more than 64; any other error is that of the first failing entry |
| `GcpProjects.CheckLabelsRejectsBadKey` | secrets_manager/models/gcp_projects.py:59-62 | a key longer than 63 characters, or with a disallowed character, makes validation fail |
| `GcpProjects.NewProject` | secrets_manager/models/gcp_projects.py:5-29 | a project is built if and only if the id matches the pattern, the display name has 4 to 30 characters and the labels pass; the built project holds exactly the given fields; on failure at least one error is listed, a bad id first, and a name shorter than 4 characters, such as `"abc"`, is reported as too short |
| `GcpProjects.Describe` | secrets_manager/models/gcp_projects.py:50-52 | the `__str__` text: it starts with `GCPProject(display_name=`, ends with `)`, and is as long as the fixed text plus the three fields |
| `GcpProjects.DescribeMentionsFields` | secrets_manager/models/gcp_projects.py:50-52 | the `__str__` text contains the display name, the resource name and the project id |
| `ProjectSearch.ValidProjectIdSurvivesSanitizing` | secrets_manager/utils/helpers.py:29-43 | a valid project id without `--` is left unchanged by the search sanitizer, so the app does not rewrite it in the search box |
| `ProjectSearch.DoubleHyphenProjectIdIsRewritten` | secrets_manager/utils/helpers.py:40-41 | `"ab--cd"` is a valid project id that the sanitizer changes |

## Left out

- Unicode: characters are classified as ASCII only. Python's `isalnum` and
  `lower` also accept non-ASCII letters and digits, which the model treats as
  non-alphanumeric: the sanitizer drops them and the label check rejects them.
- `sanitize_secrets`: it is imported at `app.py:22` and
  `secrets_manager/preview.py:14` but is not defined in
  `secrets_manager/utils/helpers.py`, so there is no code to follow.
- `app.py` and `secrets_manager/preview.py`: Textual widgets, reactive
  watchers, worker threads, notifications, and the version-path string slicing
  inside them. These are UI and concurrency code.
- `secrets_manager/utils/gcp.py`: thin calls into the Google Cloud client
  libraries and `json.loads`. These are foreign calls.
- `GCPProject.from_project_api_response` and `ConfigDict`: they copy fields
  from a Google `Project` object and hold schema metadata. Only the field
  rules they lead to are modelled.
- NewProject: pydantic's type coercion and the exact text of its validation
  errors are not modelled. An error is a variant that names the offending
  field value, and all field errors are listed in field order.
- ValidateLabels: the text of the `ValueError` messages is not modelled. Each
  error is a variant that carries the offending key or value.
- Labels are a sequence of pairs in dict insertion order. The model does not
  require distinct keys, because the validator never depends on that.
- The `__main__` demonstration block of `helpers.py` and the test files. The
  tests serve only as evidence for the properties above.
