# IntelliTaskGenerator core, modelled in Dafny

IntelliTaskGenerator is a FastAPI service. It asks a generative model for a project plan
and returns the plan as a JSON tree. The tree holds tasks with sub-tasks, and for Scrum or
Kanban projects also sprints or releases. This project models the service's data-handling
core and proves properties of it:

- the request checks. The project type must be Scrum or Kanban. A JSON payload is brought
  to object shape. The comma-separated tech stack is parsed into a list.
- the in-place clean-up of a decoded tree. Every task and sub-task priority is brought to
  one of `None`, `Low`, `Medium` or `High`. Release versions and sprint names are reduced
  to letters, digits, spaces, dots and hyphens, then cut to 50 or 45 characters.
- the reconciliation of ids between a previous and an updated tree. A task keeps the id of
  the previous task with the same issue type and summary. A sub-task keeps the id of the
  previous sub-task with the same parent summary and summary. Anything new gets `null`.
  Anything dropped stays dropped.
- the clean-up of the generator's raw text. Markdown fences and a leading `json` tag are
  removed. The result must decode to a JSON object.
- the total of the tasks' `originalEstimate` values, given as "H:M".
- the response schema: the field constraints of SubTask, Task, Sprint, ScrumProject,
  Release, KanbanProject and Project. This covers how a decoded dict is validated into
  them and how they are dumped back.

The files, each holding one module:

- `json.dfy` (`JsonValues`): decoded JSON values, `dict.get`, truthiness, and Python's
  `for x in v` over a decoded value. It also holds `JsonDict`, a class for a dict that a
  function updates in place.
- `pystrings.dfy` (`PyStrings`): the string built-ins the core relies on, namely
  `strip`, `capitalize`, `split`, `join`, `find`, `startswith` and `int()`.
- `models.dfy` (`Models`): the response schema.
- `validation.dfy` (`ValidationUtils`): `app/utils/validation_utils.py`.
- `reconcile.dfy` (`IdentityReconciler`): `validate_and_preserve_ids` of
  `app/routes/analyze.py`.
- `ai_utils.dfy` (`AiUtils`): `clean_ai_response` and `parse_ai_json`.
- `estimates.dfy` (`EstimateTotals`): `calculate_total_estimate_hours`.

## How the Python code is modelled

Each function that mutates its `data` argument in place becomes a method with
`modifies data` on a `JsonDict`. This covers `sanitize_priorities`,
`sanitize_release_and_sprint_names` and `validate_and_preserve_ids`. The method keeps the
loops of the source. It is proved equal to a specification function of the old contents:
`PrioritiesSanitized`, `NamesSanitized` or `Reconciliation`. The lemmas state the source's
promises about that function.

A Python exception raised while these functions run becomes an `Err`. Such an exception
comes from a task that is not a dict, an unhashable key, or a value that cannot be
iterated. `json.loads` is a parameter `decode: string -> Option<Json>`, where `None` means
it raises `JSONDecodeError`.

Where the docstrings and the code disagree, the model follows the code:

- The docstring of `calculate_total_estimate_hours` says sub-task estimates are summed.
  The code sums only the tasks' own estimates.
- `validate_and_preserve_ids` calls the map key a "unique key". Later duplicates overwrite
  earlier ones, and this is proved (`MapOfLastWins`).

## Model

| member | source | states |
|---|---|---|
| JsonValues.DictItems | app/utils/other_utils.py:16-18 | `for x in v: x.get(...)` on a list succeeds exactly when every element is a dict, and visits those dicts in order; `""` and `{}` succeed with no iterations, and no other non-list succeeds |
| PyStrings.Strip | app/utils/validation_utils.py:76 | the result has no leading or trailing whitespace, is unchanged on already-stripped text, and is empty exactly when the text is all whitespace |
| PyStrings.StripPadded | app/utils/validation_utils.py:59 | stripping whitespace added around a clean non-empty text gives that text back |
| PyStrings.Capitalize | app/utils/validation_utils.py:76 | first character upper-cased, the rest lower-cased, length kept |
| PyStrings.CapitalizeMatchesIgnoringCase | app/utils/validation_utils.py:76-77 | `capitalize()` yields a capitalised word exactly when the text equals that word ignoring case |
| PyStrings.Split | app/utils/validation_utils.py:59 | `split(sep)` gives at least one piece, and no piece holds the separator |
| PyStrings.JoinSplit | app/utils/validation_utils.py:59 | joining the pieces of a split with the separator gives the string back |
| PyStrings.SplitJoin | app/utils/validation_utils.py:59 | splitting a join of separator-free pieces gives the pieces back |
| PyStrings.ParseInt | app/utils/other_utils.py:11 | `int()` accepts exactly a stripped text made of an optional sign and digit groups (single underscores between digits); anything else, including empty text, is rejected; an unsigned literal gives its non-negative digit value |
| PyStrings.ParseIntNatToString | app/utils/other_utils.py:11 | `int(str(n)) == n` for every natural number |
| Models.ParseSubTask | app/models.py:5-13 | an accepted value is a dict, and the sub-task meets every field constraint (length limits 255/1000/45, issue type and priority patterns, story point in 0..2147483647) |
| Models.ParseTask | app/models.py:16-25 | an accepted task meets the constraints; a `subTasks` key must hold a list whose every element validates, and without the key the task validates exactly when its sub-task fields do and gets `subTasks == []` |
| Models.ParseProject | app/models.py:54-56 | an accepted project has a name and a list of valid tasks |
| Models.ParseSprint | app/models.py:28-33 | an accepted sprint has a name of at most 45 characters and valid tasks |
| Models.ParseRelease | app/models.py:41-46 | an accepted release has a version of 1 to 50 characters from `[A-Za-z0-9 .-]` and valid tasks |
| Models.ParseScrumProject | app/models.py:36-38 | an accepted Scrum project has a name and valid sprints |
| Models.ParseKanbanProject | app/models.py:49-51 | an accepted Kanban project has a name and valid releases |
| Models.SubTaskIgnoresOtherKeys | app/models.py:5-13 | a key the SubTask model does not declare has no effect on validation |
| Models.ParseSubTaskKeepsFields | app/models.py:5-13 | validation keeps the values it reads: every declared field present in the dict dumps back to the same value, and only the dates may be absent |
| Models.SubTaskRoundTrip | app/models.py:5-13 | validating the dump of a valid sub-task gives the sub-task back |
| Models.TaskRoundTrip | app/models.py:16-25 | validating the dump of a valid task gives the task back |
| Models.ProjectRoundTrip | app/models.py:54-56 | validating the dump of a valid project gives the project back |
| Models.ValidatedProjectDepthTwo | app/models.py:16-25 | the dump of a validated project has at most two levels: every task carries a sub-task list, and no sub-task carries one |
| Models.EmptyVersionRejected | app/models.py:42 | an empty release version fails the `+` of the version pattern |
| Models.EstimateAndPointsUnconstrained | app/models.py:12-13 | an estimate that is not "H:M" and a story point that is not on the usual scale both pass validation |
| ValidationUtils.ValidateProjectType | app/utils/validation_utils.py:6-14 | accepts exactly "Scrum" and "Kanban", and otherwise fails with status 400 and its detail |
| ValidationUtils.NormalizeShape | app/utils/validation_utils.py:28-36 | a list becomes `{"tasks": list}`, an object is kept, anything else fails with the shape error |
| ValidationUtils.ValidateJsonString | app/utils/validation_utils.py:17-46 | undecodable text fails with the invalid-JSON error, and decoded text goes through the shape normalisation |
| ValidationUtils.ValidateJsonStringOutcomes | app/utils/validation_utils.py:17-46 | fails exactly on undecodable text or a decoded scalar, always with status 400 |
| ValidationUtils.NormalizeShapeIdempotent | app/utils/validation_utils.py:28-36 | normalising an already-normalised payload changes nothing |
| ValidationUtils.ParseTechStack | app/utils/validation_utils.py:49-59 | a falsy value gives `[]`, another non-string fails with status 400, and every element of a parsed list is non-empty, stripped and comma-free |
| ValidationUtils.StrippedNonEmptyAppend | app/utils/validation_utils.py:59 | the comprehension keeps the order of the pieces, because it distributes over concatenation |
| ValidationUtils.TechStackRoundTrip | app/utils/validation_utils.py:49-59 | joining clean names with commas and parsing the result gives the names back |
| ValidationUtils.Normalize | app/utils/validation_utils.py:74-78 | the result is always one of the four priorities, and a non-string gives "None" |
| ValidationUtils.NormalizeIgnoresCase | app/utils/validation_utils.py:74-78 | normalize is the stripped text matched against the four priorities ignoring case, with "None" when nothing matches |
| ValidationUtils.NormalizeFixesPriorities | app/utils/validation_utils.py:72-78 | each valid priority is its own normalisation |
| ValidationUtils.NormalizeIdempotent | app/utils/validation_utils.py:74-78 | normalising a normalised priority changes nothing |
| ValidationUtils.NormalizeUpperCaseExample | app/utils/validation_utils.py:74-78 | "HIGH" becomes "High", and the number 3 becomes "None" |
| ValidationUtils.NormalizeUnknownExample | app/utils/validation_utils.py:74-78 | "urgent" becomes "None" |
| ValidationUtils.WithNormalizedPriority | app/utils/validation_utils.py:82 | the assignment adds or overwrites `priority` with a valid priority, and no other key changes |
| ValidationUtils.PrioritiesSanitized | app/utils/validation_utils.py:80-87 | data whose `tasks` is missing or not a list comes back unchanged, and the only failure is the runtime error of a non-dict item |
| ValidationUtils.PrioritiesSanitizedConform | app/utils/validation_utils.py:67-87 | after sanitisation, every task priority and every sub-task priority in a list-valued `subTasks` matches the schema's priority pattern |
| ValidationUtils.PrioritiesSanitizedFrame | app/utils/validation_utils.py:80-85 | only `priority` keys are written: other top-level keys, the number and order of tasks and sub-tasks, and every other field are kept |
| ValidationUtils.PrioritiesSanitizedFails | app/utils/validation_utils.py:80-85 | sanitisation raises exactly when a task, or a sub-task in a list-valued `subTasks`, is not a dict |
| ValidationUtils.PrioritiesSanitizedIdempotent | app/utils/validation_utils.py:67-87 | sanitising twice gives the result of sanitising once |
| ValidationUtils.NormalizeSubTaskPriorities | app/utils/validation_utils.py:84-85 | the inner loop succeeds exactly when every sub-task is a dict, and gives the normalised list |
| ValidationUtils.SanitizeTask | app/utils/validation_utils.py:82-85 | the outer loop body for one task succeeds exactly when its sub-tasks are sanitisable, and gives the sanitised task |
| ValidationUtils.SanitizePriorities | app/utils/validation_utils.py:67-87 | the in-place loops leave `data` equal to the sanitised dict, and fail exactly where the specification function does |
| ValidationUtils.RemoveDisallowed | app/utils/validation_utils.py:102 | the result holds only `[A-Za-z0-9 .-]`, and an already-allowed text is kept |
| ValidationUtils.RemoveDisallowedAppend | app/utils/validation_utils.py:102 | the substitution works character by character, because it distributes over concatenation |
| ValidationUtils.CleanName | app/utils/validation_utils.py:102-104 | the cleaned name holds only allowed characters and is within the limit, and an already-clean name is kept |
| ValidationUtils.CleanNameNotIdempotent | app/utils/validation_utils.py:102-104 | the cut to 50 can leave a trailing space, which a second cleaning removes, so cleaning is not idempotent |
| ValidationUtils.CleanNameCanBeEmpty | app/utils/validation_utils.py:102 | a version made only of disallowed characters cleans to "" |
| ValidationUtils.CleanedContainer | app/utils/validation_utils.py:99-108 | a dict element never fails and changes at most in its string `field`, which ends clean and within the limit; a number, bool or None element raises (`in` on it is a TypeError) |
| ValidationUtils.NamesSanitized | app/utils/validation_utils.py:90-123 | data where neither `releases` nor `sprints` is a list comes back unchanged, and the only failure is the runtime error of an element that cannot be tested or indexed |
| ValidationUtils.CleanedListFacts | app/utils/validation_utils.py:98-108 | the loop keeps other keys and the length of the list, cleans each string field, and leaves everything else alone |
| ValidationUtils.NamesSanitizedFacts | app/utils/validation_utils.py:90-123 | afterwards every string release version is clean and at most 50 long, every string sprint name is clean and at most 45 long, and `tasks` is untouched |
| ValidationUtils.CleanedNamesAgainstSchema | app/utils/validation_utils.py:102-117 | a cleaned version passes the Release version constraint exactly when it is not empty, and a cleaned sprint name always fits Sprint's limit |
| ValidationUtils.CleanListInPlace | app/utils/validation_utils.py:98-108 | one loop, in place: `data` ends equal to the specification of that loop, and it fails exactly where the specification does |
| ValidationUtils.SanitizeReleaseAndSprintNames | app/utils/validation_utils.py:90-123 | releases and then sprints are cleaned in place, equal to the specification function, and it fails exactly where that function does |
| IdentityReconciler.Hashed | app/routes/analyze.py:71-72 | a key component exists exactly for the hashable values: not for lists or dicts |
| IdentityReconciler.HashedMatchesEquality | app/routes/analyze.py:83 | two hashable values give the same key component exactly when Python's `==` holds between them (so `True`, `1` and `1.0` coincide) |
| IdentityReconciler.TaskKey | app/routes/analyze.py:71 | a task key is a pair, and it is missing exactly when the issue type or the summary is unhashable |
| IdentityReconciler.SubTaskKey | app/routes/analyze.py:76 | a sub-task key is a triple tagged "subtask", and it is missing exactly when a summary is unhashable |
| IdentityReconciler.KeysNeverCollide | app/routes/analyze.py:71-77 | a task key never equals a sub-task key |
| IdentityReconciler.InsertedAppend | app/routes/analyze.py:72-77 | the assignments to existing_map compose in order |
| IdentityReconciler.MapOfLastWins | app/routes/analyze.py:66-77 | a key is in existing_map exactly when some assignment wrote it, and the last such assignment's id is the one kept |
| IdentityReconciler.InsertedLastWins | app/routes/analyze.py:72-77 | on top of any map, a key no assignment writes keeps its value, and a written key holds the id of its last assignment |
| IdentityReconciler.ExistingMap | app/routes/analyze.py:66-77 | no `tasks` gives an empty map, and every key of existing_map is a task pair or a triple tagged "subtask" |
| IdentityReconciler.PreviousTaskIds | app/routes/analyze.py:69-72 | a task key is in existing_map exactly when some previous task has it, and then holds the id of the last previous task with that key |
| IdentityReconciler.PreviousSubTaskIds | app/routes/analyze.py:69-77 | a sub-task key is in existing_map exactly when some previous sub-task has it, and then holds the id of the last one with that key in loop order |
| IdentityReconciler.PreviousEntriesSome | app/routes/analyze.py:69-77 | the first loop succeeds exactly when it succeeds on every previous task |
| IdentityReconciler.SubTaskEntriesSome | app/routes/analyze.py:75-77 | the inner loop succeeds exactly when every sub-task key is hashable |
| IdentityReconciler.NoPreviousSubTasks | app/routes/analyze.py:69-77 | when no previous task has sub-tasks, existing_map holds only task keys |
| IdentityReconciler.SubTasksNeverTakeTaskIds | app/routes/analyze.py:94-98 | with only task keys in the map, every sub-task gets id None |
| IdentityReconciler.BuildExistingMap | app/routes/analyze.py:66-77 | the first loop builds exactly the map of the assignments, in order, or fails where the Python code raises |
| IdentityReconciler.InsertTask | app/routes/analyze.py:71-77 | one pass of the first loop adds the task's assignment and then its sub-tasks' assignments |
| IdentityReconciler.IdFor | app/routes/analyze.py:83-87 | the stored id for a known key, and None for an unknown one |
| IdentityReconciler.ReconciledSubTasks | app/routes/analyze.py:91-99 | the inner loop succeeds exactly when it succeeds on each sub-task, keeps their number, and reconciles each one |
| IdentityReconciler.ReconciledTaskFacts | app/routes/analyze.py:80-99 | a reconciled task gets the id stored for its key (None without a match), only its `id` is written, and each sub-task in a list gets the id stored for its own key |
| IdentityReconciler.ReconciledFacts | app/routes/analyze.py:80-101 | the second phase writes only ids: other top-level keys and the number and order of tasks are kept, so no task is added or brought back |
| IdentityReconciler.ReconciledHasIds | app/routes/analyze.py:80-99 | afterwards every task, and every sub-task in a list-valued `subTasks`, has an `id` key |
| IdentityReconciler.ReconciledTaskIdempotent | app/routes/analyze.py:80-99 | reconciling a reconciled task again changes nothing |
| IdentityReconciler.ReconciledIdempotent | app/routes/analyze.py:80-99 | reconciling twice against the same previous tree changes nothing more |
| IdentityReconciler.Reconciliation | app/routes/analyze.py:58-101 | a failing first loop fails the call, an updated dict without `tasks` comes back unchanged, and the only failure is a runtime error |
| IdentityReconciler.PreservedIdFromPrevious | app/routes/analyze.py:66-88 | on whole trees: an updated task gets the id of the last previous task with the same (issueType, summary), and None when no previous task has that key |
| IdentityReconciler.PreservedSubTaskIdFromPrevious | app/routes/analyze.py:66-99 | on whole trees: a sub-task gets the id of the last previous sub-task with the same (parent summary, summary), whatever its issueType, and None when no previous sub-task has that key |
| IdentityReconciler.ReconcileTask | app/routes/analyze.py:81-99 | the loop body for one task, with its inner loop over sub-tasks, equals the task's specification |
| IdentityReconciler.ApplyIds | app/routes/analyze.py:80-99 | the second loop, in place, leaves `updated` equal to the specification, and fails exactly where that does |
| IdentityReconciler.ValidateAndPreserveIds | app/routes/analyze.py:58-101 | builds the map, applies the ids in place, and returns the updated dict, equal to the reconciliation of the two trees; it fails exactly where that does |
| IdentityReconciler.PlainTaskEntries | app/routes/analyze.py:71-72 | a previous task without sub-tasks contributes just its own key and id |
| IdentityReconciler.ExistingMapOfTwo | app/routes/analyze.py:66-77 | the map built from two previous tasks without sub-tasks |
| IdentityReconciler.ReconciledOfTwo | app/routes/analyze.py:80-88 | an updated tree of two tasks without sub-tasks gets the ids stored for their keys |
| IdentityReconciler.TwoPlainTasks | app/routes/analyze.py:58-101 | the update/create/delete strategy on two tasks: a matching task keeps its id, a new one gets None, and a dropped one stays dropped |
| IdentityReconciler.ReconciliationExample | app/routes/analyze.py:58-101 | "FE: Login" keeps id "abc123", an added task gets null, and a removed task is not restored |
| AiUtils.SplitOn | app/utils/ai_utils.py:14 | `split("```")` gives at least one piece, the whole text without a fence, and otherwise at least two pieces, the first being the text before the fence |
| AiUtils.ReplaceFirst | app/utils/ai_utils.py:16 | `replace(pat, repl, 1)` replaces the first occurrence only, and does nothing without one |
| AiUtils.CleanAiResponse | app/utils/ai_utils.py:6-22 | the cleaned text never has surrounding whitespace |
| AiUtils.FenceSplit | app/utils/ai_utils.py:13-14 | after a leading fence the split always has a second piece, so `[1]` never raises |
| AiUtils.CleanNeverFails | app/utils/ai_utils.py:6-22 | on a string, cleaning never takes its error path |
| AiUtils.ReplaceLeadingTag | app/utils/ai_utils.py:15-16 | a leading "json" is the first occurrence, so the replacement drops exactly the first four characters |
| AiUtils.CleanPlainText | app/utils/ai_utils.py:11-19 | text without a leading fence or "json" tag is only stripped |
| AiUtils.CleanObjectText | app/utils/ai_utils.py:11-19 | a bare JSON object comes back stripped and otherwise unchanged |
| AiUtils.CleanFencedText | app/utils/ai_utils.py:13-16 | after a leading fence the result is the text up to the next fence, stripped, with a leading "json" tag removed once |
| AiUtils.CleanTaggedText | app/utils/ai_utils.py:15-16 | without a fence, a leading "json" tag is removed exactly once |
| AiUtils.TaggedText | app/utils/ai_utils.py:15-16 | a "json" tag, a space and a clean text leave that text |
| AiUtils.TagRemovedOnce | app/utils/ai_utils.py:15-16 | "json json x" becomes "json x" |
| AiUtils.FenceBodyOf | app/utils/ai_utils.py:14 | between two fences, a text without backquotes is the fence body |
| AiUtils.FencedObject | app/utils/ai_utils.py:13-16 | a fenced, tagged, clean body comes back as the body |
| AiUtils.FencedClean | app/utils/ai_utils.py:13-16 | the text between two fences comes back stripped, with a leading tag removed |
| AiUtils.FencedExample | app/utils/ai_utils.py:13-16 | "```json\n{}\n```" becomes "{}" |
| AiUtils.FirstOccurrence | app/utils/ai_utils.py:16 | the first occurrence of the pattern is the one found |
| AiUtils.DecodeObject | app/utils/ai_utils.py:28-41 | accepts exactly a decoded object and returns it; undecodable text gives "AI returned invalid JSON output."; every failure has status 500 |
| AiUtils.DecodeObjectIntended | app/utils/ai_utils.py:28-41 | the same decoding as intended: a decoded non-object, and only that, gives "AI returned JSON, but it must be an object." |
| AiUtils.ParseAiJson | app/utils/ai_utils.py:25-41 | parse_ai_json as written: a result is the decoding of the cleaned text as an object, and every failure has status 500 |
| AiUtils.ParseAiJsonIntended | app/utils/ai_utils.py:25-41 | parse_ai_json as intended, with the same result and status guarantees |
| AiUtils.ParseAiJsonOutcomes | app/utils/ai_utils.py:25-41 | the result is exactly the decoded object; undecodable text fails with "AI returned invalid JSON output."; every failure has status 500 |
| AiUtils.NonObjectDetailLost | app/utils/ai_utils.py:30-41 | as written, a decoded non-object is reported as "Error parsing AI JSON.", not with its own detail |
| AiUtils.IntendedAgreesOtherwise | app/utils/ai_utils.py:30-41 | the corrected parse agrees with the written one on success, keeps status 500, and reports "it must be an object" exactly for a decoded non-object |
| EstimateTotals.ParseEstimate | app/utils/other_utils.py:6-13 | a falsy, non-string or colon-free estimate counts 0, and so does one that does not split into exactly two pieces |
| EstimateTotals.SplitCount | app/utils/other_utils.py:10 | a split has one piece more than there are colons |
| EstimateTotals.ParseEstimateNonZero | app/utils/other_utils.py:6-13 | a non-zero estimate has exactly one colon and an integer on each side, and is 60 * H + M minutes |
| EstimateTotals.TwoColonsCountZero | app/utils/other_utils.py:10-13 | "1:2:3" and the like count 0, because the unpacking raises and is caught |
| EstimateTotals.SplitTwo | app/utils/other_utils.py:10 | "a:b" with colon-free sides splits into exactly those two pieces |
| EstimateTotals.ParseEstimateOfParts | app/utils/other_utils.py:10-11 | "H:M" written in decimal is 60 * H + M minutes, that is H + M / 60 hours |
| EstimateTotals.ParseEstimateExample | app/utils/other_utils.py:4 | "125:30" is 7530 minutes, that is 125.5 hours |
| EstimateTotals.EstimateSumAppend | app/utils/other_utils.py:17-18 | appending a task raises the sum by exactly its estimate |
| EstimateTotals.SubTasksIgnored | app/utils/other_utils.py:17-18 | tasks that agree on their own estimates have the same total, whatever their sub-tasks |
| EstimateTotals.TotalWithoutTasks | app/utils/other_utils.py:16 | data without `tasks` totals 0 |
| EstimateTotals.TotalEstimate | app/utils/other_utils.py:15-18 | a list of tasks is totalled exactly when every element is a dict, and the only failure is a runtime error |
| EstimateTotals.TotalAppend | app/utils/other_utils.py:15-18 | appending a task dict to the list raises the total by exactly its estimate |
| EstimateTotals.TotalIgnoresSubTasks | app/utils/other_utils.py:17-18 | replacing a task's sub-tasks leaves the total unchanged |
| EstimateTotals.CalculateTotalEstimate | app/utils/other_utils.py:15-18 | the summing loop computes the total of the specification, and fails exactly where iterating the tasks raises |

## Left out

- Logging (`logger.info`, `logger.warning`, `logger.error`) has no effect on results and is not modelled.
- The route handlers, the generator client and service, the prompt templates, file uploads and configuration are not part of this model.
- `json.loads` is a parameter of the model, not a JSON parser. `None` stands for `JSONDecodeError`.
- Unicode case mapping is out: `capitalize()` maps ASCII letters only, and other characters are kept.
- Unicode decimal digits accepted by `int()` are out, and so is its 4300-digit limit.
- EstimateTotals.CalculateTotalEstimate: the total is in exact whole minutes. The float addition and the final `round(total, 2)` are not modelled. `Hours` gives the value in hours before rounding.
- EstimateTotals.ParseEstimate: returns minutes, not float hours. An `int()` value large enough to overflow the float division is not modelled.
- Dict key order is not modelled: dicts are maps. The order of list elements is kept.
- The state of `data` after a function raises part-way is unspecified. The model reports only the failure, and the caller discards that payload.
- Aliasing is not modelled. Nested dicts are values, so the model assumes the previous and updated trees share no dict, which holds for freshly decoded JSON.
- Pydantic's lax coercion is not modelled, for example a numeric string or a whole float such as `3.0` accepted as an int. Fields must have the declared JSON type. The regex `$`, which in Pydantic's regex engine matches only at the very end, is an exact match.
- Models.ParseScrumProject and Models.ParseKanbanProject: no dump or round trip is proved for the Scrum and Kanban shapes. They reuse the same task validation, whose round trip is proved.
- ValidationUtils.SanitizeReleaseAndSprintNames is modelled although the generation service does not call it: its call is commented out in `app/services/genai_service.py`.
- HTTP status codes are modelled only as the status and detail of each error. FastAPI's handling of those errors is not modelled.
- Float values in the tree (`JFloat`) are carried as exact reals. NaN and infinities are not modelled.

## Findings

| source | as written | input that shows it | evidently intended | confidence | as-written member | corrected member |
|---|---|---|---|---|---|---|
| app/utils/ai_utils.py:30-41 | the HTTPException raised for a decoded non-object is caught by the outer `except Exception` and replaced with detail "Error parsing AI JSON." | any generator text that decodes to a non-object, e.g. `[]` | the detail "AI returned JSON, but it must be an object." reaches the caller | not executed | AiUtils.NonObjectDetailLost | AiUtils.IntendedAgreesOtherwise |
