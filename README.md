# driftctl core, modelled in Dafny

driftctl compares the resources that Terraform state declares with the
resources that exist in a cloud account, and reports drift. This project
models four pieces of it and proves properties about each one.

- **The `.driftignore` filter** (`driftignore.dfy`, module `DriftIgnoreFilter`).
  - A rule line is cut on unescaped dots by `escapableSplit`.
  - A line `type.id` or `type.*` ignores whole resources, which `IsResourceIgnored` answers.
  - A longer line `type.id.path.to.field` ignores drift on matching fields, which `IsFieldIgnored` and `isExcluded` answer.
  - A path pattern matches a change path when it is no longer than the path and each segment equals the lower-cased change segment or is `*`.
  - The `DriftIgnore` object is a class. Its two exclusion lists are fields that the line loop of `readIgnoreFile` updates one line at a time. That loop is proved against the function `AddLines`.
- **The instance group middleware** (`instance_group_expander.dfy`, module `InstanceGroupExpander`).
  - Its input is a state list and a remote list.
  - Every `google_compute_instance_group_manager` in the state list is followed by the remote `google_compute_instance_group` resources that carry its name.
  - The state list, a pointer to a slice in the source, is a class whose `items` field is overwritten.
  - The first loop and the inner loop of `Execute` are the methods `CollectInstanceGroups` and `AppendNamed`.
- **The JSON output** (`json_output.dfy`, module `JsonOutput`).
  - Whether the output goes to standard output (`stdout` or `/dev/stdout`).
  - The printer for informational messages, which is silenced in that case.
  - Where `Write` sends the report.
- **The acceptance-test harness helpers** (`acceptance.dfy`, module `Acceptance`).
  - The validation of a test case.
  - The environment Terraform runs with: `ACC_X` overrides `X`, and otherwise the first entry wins.
  - The command line a run builds.

`resources.dfy` holds the resource value shared by the filter and the middleware: a type, an id and an attribute map. `wrappers.dfy` holds `Option`.

The rule `aws_instance.i-1.tags.*` does not ignore a change at the path `tags` itself, because `isExcluded` skips a pattern longer than the change path (`TagsRuleExample`).

A field rule is stored as the join, with dots, of its path segments after they have been unescaped, and `isExcluded` splits that join again. So, when `Unescape` turns `\.` into `.`, a dot escaped inside a field path splits the path after all. The rule `t.i.a\.b` then matches the change path `a`, `b` and never a single field named `a.b` (`EscapedFieldDotLost`).

## Model

| member | source | states |
|---|---|---|
| DriftIgnoreFilter.EscapableSplit | pkg/filter/driftignore.go:126-140 | the loop returns the unescaped segments of the line: one per splitting dot, plus the rest of the line when the line does not end in a splitting dot |
| DriftIgnoreFilter.SegmentCount | pkg/filter/driftignore.go:126-140 | the number of segments is the number of splitting dots, plus one when the line is non-empty and does not end in a splitting dot |
| DriftIgnoreFilter.JoinSegments | pkg/filter/driftignore.go:126-140 | joining the raw segments with dots rebuilds the line, without its final splitting dot |
| DriftIgnoreFilter.NoSplitOneSegment | pkg/filter/driftignore.go:126-140 | a non-empty line without a splitting dot is a single segment |
| DriftIgnoreFilter.NoDotOneSegment | pkg/filter/driftignore.go:126-140 | a line without a dot gives no segment when empty and otherwise exactly its unescaped self |
| DriftIgnoreFilter.LeadingDot | pkg/filter/driftignore.go:130 | a dot in the first position never splits, whatever follows: it begins the first segment, and unless a second dot comes straight after it, that segment is the dot glued to the first segment of the rest |
| DriftIgnoreFilter.EscapedDot | pkg/filter/driftignore.go:130 | after a word without splitting dots that ends in a single backslash, the dot does not split, whatever follows: the word and the dot begin the first segment, glued to the first segment of the rest unless a second dot comes straight after |
| DriftIgnoreFilter.TrailingDot | pkg/filter/driftignore.go:130-137 | a final splitting dot adds an empty segment only after another final splitting dot, and otherwise adds nothing |
| DriftIgnoreFilter.SplitAtDot | pkg/filter/driftignore.go:130-133 | an unescaped dot (or one after a double backslash) after a word without splitting dots separates that word from the segments of the rest, when the rest does not begin with a dot |
| DriftIgnoreFilter.DoubleDot | pkg/filter/driftignore.go:130-133 | two splitting dots in a row after such a word enclose an empty segment, followed by the segments of the rest |
| DriftIgnoreFilter.EscapeExamples | pkg/filter/driftignore.go:126-140 | concrete splits of plain, escaped, double-escaped, leading-dot and trailing-dot lines |
| DriftIgnoreFilter.MoreDotExamples | pkg/filter/driftignore.go:126-140 | `.a.b` gives `.a`, `b`; `x\.y.z` gives `x\.y`, `z`; `a..b` gives `a`, an empty segment, `b` |
| DriftIgnoreFilter.SplitVisiting | pkg/filter/driftignore.go:129-138 | the loop as written, over the offsets that `range` visits: it yields at most one segment per visited offset |
| DriftIgnoreFilter.AllOffsetsSplit | pkg/filter/driftignore.go:129-138 | a loop that visits every byte offset yields exactly the raw segments |
| DriftIgnoreFilter.MultiByteLastRune | pkg/filter/driftignore.go:129-138 | when the last character is multi-byte, the loop as written drops the final segment |
| DriftIgnoreFilter.DriftIgnore.constructor | pkg/filter/driftignore.go:20-30 | the lists start empty and then hold the rules of the file's lines; a file that cannot be opened leaves them empty |
| DriftIgnoreFilter.DriftIgnore.ReadIgnoreFile | pkg/filter/driftignore.go:40-74 | after the loop, the lists are the rules the lines add, in order, to the previous lists |
| DriftIgnoreFilter.AddLine | pkg/filter/driftignore.go:42-73 | one line's segments only add rules: no ignored resource, no key and no earlier pattern of a key is dropped |
| DriftIgnoreFilter.AddLines | pkg/filter/driftignore.go:40-74 | scanning lines only adds ignored resources and field-rule keys |
| DriftIgnoreFilter.LineEffect | pkg/filter/driftignore.go:42-73 | a line of fewer than two segments changes nothing; two segments add their join to the ignored resources; more append one pattern under the first two segments' join and change no other key |
| DriftIgnoreFilter.AddLinesConcat | pkg/filter/driftignore.go:40-74 | reading two blocks of lines is reading the first block, then the second |
| DriftIgnoreFilter.MalformedLineSkipped | pkg/filter/driftignore.go:44-49 | deleting a line of fewer than two segments from the file changes no rule |
| DriftIgnoreFilter.ResourceRulesOfLines | pkg/filter/driftignore.go:50-56 | a key is an ignored resource if and only if it was one before, or some two-segment line joins to it |
| DriftIgnoreFilter.FieldRulesOfLines | pkg/filter/driftignore.go:58-73 | a key has field rules if and only if it had some before or some line gives it a pattern; its list is the earlier patterns followed by the lines' patterns in file order |
| DriftIgnoreFilter.FieldRulesByFile | pkg/filter/driftignore.go:58-73 | after reading a file, each key's field-rule list is exactly the patterns the file gives it, and a key without such a line has no list |
| DriftIgnoreFilter.DriftIgnore.IsResourceIgnored | pkg/filter/driftignore.go:83-87 | a resource is ignored when `type.id` or `type.*` is among the ignored resources; what a file makes of this is stated by `ResourceIgnoredByFile` |
| DriftIgnoreFilter.ResourceIgnoredByFile | pkg/filter/driftignore.go:83-87 | after reading a file, a resource is ignored if and only if some two-segment line names `type.id` or `type.*` |
| DriftIgnoreFilter.WildcardResourceExample | pkg/filter/driftignore.go:83-87 | the rule `aws_iam_user_policy.*` ignores every resource of that type, whatever its id, and no resource of any other type |
| DriftIgnoreFilter.DriftIgnore.IsFieldIgnored | pkg/filter/driftignore.go:89-106 | without rules for `type.id` or `type.*` nothing is ignored; the `type.id` rules decide when present; otherwise the `type.*` rules decide |
| DriftIgnoreFilter.EscapedFieldDotLost | pkg/filter/driftignore.go:58-73 | the rule `t.i.a\.b` files the pattern `a.b`, which matches the change path `a`, `b` and not the path made of the single field `a.b` |
| DriftIgnoreFilter.DriftIgnore.IsExcluded | pkg/filter/driftignore.go:108-124 | the result is true if and only if some rule, split, is no longer than the change path and matches each lower-cased segment exactly or by `*` |
| DriftIgnoreFilter.TagsRuleExample | pkg/filter/driftignore.go:108-124 | the rule `aws_instance.i-1.tags.*` files one pattern under `aws_instance.i-1`; it matches `tags.Name` and matches neither `tags` nor `metadata.tags` |
| InstanceGroupExpander.Execute | pkg/middlewares/google_compute_instance_group_manager_expander.go:17-50 | it returns no error; the state list becomes its expansion by the remote instance groups, where a manager without a name injects nothing; the remote list, when it is a different list, is unchanged |
| InstanceGroupExpander.CollectInstanceGroups | pkg/middlewares/google_compute_instance_group_manager_expander.go:20-27 | the first loop keeps exactly the remote resources of type `google_compute_instance_group`, in remote order |
| InstanceGroupExpander.AppendNamed | pkg/middlewares/google_compute_instance_group_manager_expander.go:39-44 | the inner loop appends exactly the instance groups whose name is present and equal to the manager's, in order, and nothing for a manager without a name |
| InstanceGroupExpander.ExpandedStep | pkg/middlewares/google_compute_instance_group_manager_expander.go:29-44 | one more state resource appends that resource followed by what it injects |
| InstanceGroupExpander.ExpandedAt | pkg/middlewares/google_compute_instance_group_manager_expander.go:29-45 | every state resource keeps its place and is followed directly by what it injects: its named groups if it is a manager, nothing otherwise |
| InstanceGroupExpander.ExpandedConcat | pkg/middlewares/google_compute_instance_group_manager_expander.go:29-45 | expanding two blocks of state is expanding each block and concatenating the results |
| InstanceGroupExpander.KeptInOrder | pkg/middlewares/google_compute_instance_group_manager_expander.go:29-30 | the original state resources appear in the new list in their original order |
| InstanceGroupExpander.SecondRunInjectsAgain | pkg/middlewares/google_compute_instance_group_manager_expander.go:29-48 | a manager and its group expand to the manager followed by the group, and expanding that result again injects the group a second time |
| InstanceGroupExpander.MatchingGroups | pkg/middlewares/google_compute_instance_group_manager_expander.go:20-27 | collecting the instance groups and then filtering by name gives exactly the remote instance groups, in remote order, whose name is present and equal |
| InstanceGroupExpander.NamedAsConcat | pkg/middlewares/google_compute_instance_group_manager_expander.go:39-44 | filtering two blocks of groups by name is filtering each block |
| InstanceGroupExpander.OnlyInstanceGroupsInjected | pkg/middlewares/google_compute_instance_group_manager_expander.go:37-43 | everything in the new list is a state resource, or a remote instance group whose name is a state manager's name |
| InstanceGroupExpander.ExpandedLength | pkg/middlewares/google_compute_instance_group_manager_expander.go:29-45 | the new list is the old one plus the groups each manager injects |
| InstanceGroupExpander.NoManagerUnchanged | pkg/middlewares/google_compute_instance_group_manager_expander.go:33-35 | a state list without a manager is left as it was |
| JsonOutput.NewJson | pkg/cmd/scan/output/json.go:19-21 | the output keeps the path it was given |
| JsonOutput.Json.IsStdOut | pkg/cmd/scan/output/json.go:51-53 | the output goes to standard output exactly for the paths `/dev/stdout` and `stdout`; `GetInfoPrinter` and `Write` state what follows from it |
| JsonOutput.Json.GetInfoPrinter | pkg/cmd/scan/output/json.go:23-28 | the void printer if and only if the output goes to `stdout` or `/dev/stdout`, the console printer otherwise |
| JsonOutput.GetInfoPrinterCases | pkg/cmd/scan/output/json_test.go:165-199 | a file path keeps the console printer; both spellings of standard output silence it |
| JsonOutput.Json.Write | pkg/cmd/scan/output/json.go:30-39 | standard output is used without opening anything; any other path is opened, and a failed open is returned as the error with nothing written |
| Acceptance.CheckArgs | test/acceptance/testing.go:91-95 | an error if and only if some argument is `--output` or `-o`, and that error is the output-flag message |
| Acceptance.Validate | test/acceptance/testing.go:82-98 | missing checks are reported first, then missing paths, then an output flag among the arguments; otherwise the case is valid |
| Acceptance.ResolveTerraformEnv | test/acceptance/testing.go:122-141 | every key of the map has its resolved value: the last `ACC_` entry for it if there is one, else its first plain entry; keys no entry sets are absent |
| Acceptance.ResolvedSnoc | test/acceptance/testing.go:128-138 | one more entry: an `ACC_` entry replaces its variable, and a plain entry sets it only when unset |
| Acceptance.ResolvedKeysFromEntries | test/acceptance/testing.go:128-138 | a variable is resolved if and only if some entry with a `=` sets it, directly or through `ACC_` |
| Acceptance.EntryWithoutValueSkipped | test/acceptance/testing.go:135-137 | an entry without `=` changes no variable |
| Acceptance.OverrideWins | test/acceptance/testing.go:130-134 | the last `ACC_X` entry sets `X`, whatever the plain `X` entries before or after it say |
| Acceptance.FirstPlainWins | test/acceptance/testing.go:135-137 | without an `ACC_X` entry, the first plain `X` entry sets `X` and later ones are ignored |
| Acceptance.FromArgs | test/acceptance/testing.go:341-346 | one `--from tfstate://<path>/terraform.tfstate` pair per path, in path order |
| Acceptance.BuildRunArgs | test/acceptance/testing.go:332-351 | nil arguments stay nil; otherwise an empty program name, the case's arguments, the `--from` pairs unless an argument is `--from` or `-f`, and the output flag naming the result file |

## Left out

- Reading `.driftignore` from disk, the scanner's read error and all logging are not modelled. The file is the sequence of lines the scanner would yield, or no file (`None`) when opening fails. A scanner error in the middle of the file would keep the rules read so far; the model does not represent that.
- `stringutils.Unescape` is not part of this model. It is a parameter `unescape` of the filter. The general lemmas hold for any unescaping function; the example lemmas state in their `requires` what they assume of it.
- DriftIgnoreFilter.Lower: the model lower-cases ASCII letters only, whereas `strings.ToLower` maps all of Unicode.
- DriftIgnoreFilter.EscapableSplit: a character stands for one byte, and the loop visits every offset, which is the corrected loop (see Findings). Go's `range` visits only the offsets where runes start. That as-written loop is modelled separately by `SplitVisiting` with the visited offsets as an input, because UTF-8 decoding is not modelled.
- The resource type and the drift analyser are not part of this model. A resource is only its type, its id and its attributes, and string attributes are the only kind that `GetString` distinguishes.
- InstanceGroupExpander.Execute excludes exactly the inputs on which the source panics: a manager without a string `name` while some remote instance group has one. This assumes that `GetString` returns nil for a `name` that is missing or not a string, as `Resources.GetString` does; the resource package is not part of this model. The name test short-circuits on a group without a name, so a nameless manager is otherwise harmless and injects nothing.
- Running the middleware twice is not idempotent, because the second run injects the groups again (`SecondRunInjectsAgain`).
- JsonOutput.Json.Write: the JSON encoding of the analysis, the write itself and their errors are not modelled; only the choice of destination and the open error are. The open error is an input, since the file system is not modelled.
- The printers of `pkg/output` are named values. What they print is not modelled.
- Acceptance.ResolveTerraformEnv excludes exactly the inputs on which the source panics: an entry without `=` whose key has the `ACC_` prefix, or whose key is not yet in the map when it is reached. In both cases the source reads a value that `SplitN` did not produce. An entry without `=` whose key is already set is skipped, as in the source. `os.Environ()` is the input sequence.
- `path.Join` is not part of this model. `BuildRunArgs` takes it as the parameter `pathJoin`.
- The rest of `testing.go` is not modelled, because it runs processes and touches the real environment: Terraform initialisation and apply, `Setenv`/`Clearenv`, the test-case checks, `RetryFor`, capturing the driftctl command's output, and the assignment to `os.Args`.
- The other files of the repository are context and are not modelled: the progress printer, the console printer, the resource metadata, and the AWS repositories.

## Findings

| source | as written | input that shows it | evidently intended | confidence | as-written member | corrected member |
|---|---|---|---|---|---|---|
| pkg/filter/driftignore.go:129-138 | `range` over the string visits only the offsets where runes start, and the final segment is appended only when such an offset is the last byte | the line `a.é` (bytes 61 2E C3 A9) gives `["a"]` instead of `["a", "é"]` | the text after the last splitting dot is always a segment, whatever its characters | not executed | DriftIgnoreFilter.MultiByteLastRune | DriftIgnoreFilter.EscapableSplit |
