# kubecfg diff and validate, modelled in Dafny

This project models two commands of kubecfg, a tool that applies Kubernetes
manifests.

- `kubecfg diff` compares each desired object with its live counterpart on the
  cluster. It visits the objects in sorted order and streams one report section
  per object. It stops at the first real error. When some object is absent or
  modified, it returns the `ErrDiffFound` sentinel instead of nil. In "subset"
  mode, the live object is first projected onto the shape of the config (field
  elision). This drops what the server added and the user never wrote.
- `kubecfg validate` learns which API group-versions the server serves. It
  checks every object against the server's schema, skipping unknown
  group-versions when asked to. It collects errors instead of stopping, and
  fails with "Validation failed" if any object had one.

Files:

- `json.dfy` (`Json`): the JSON-like value tree of unstructured objects.
- `elision.dfy` (`Elision`): `isEmptyValue`, `removeFields`,
  `removeMapFields`, `removeListFields`, and what they guarantee.
- `resources.dfy` (`Resources`): objects and group-versions.
- `ordering.dfy` (`Ordering`): the sort at the start of the diff command.
- `diff.dfy` (`Diff`): `DiffCmd.Run`, its specification `Drive`/`Step`, and
  lemmas about the status and the output.
- `validate.dfy` (`Validate`): `newGroupVersionChecker` and `ValidateCmd.Run`.
- `wrappers.dfy` (`Wrappers`): `Option` and `Result`.

Behaviour that follows the code:

- A JSON null in the config is not empty. `isEmptyValue(reflect.ValueOf(nil))`
  sees the kind `Invalid`, and no case of the switch matches it. So a null
  config key that the live object lacks is dropped, not kept. Null is not
  treated as empty, even though a reader might expect it to be.
- Any `DiffStrategy` other than the exact string "subset" compares whole
  objects. That includes the command's default, "all".
- `sort.Sort` is not stable. Objects whose keys tie may come in any order.
  The model fixes one of those orders.
- When a map or list config meets a live value of another shape, the Go type
  assertion panics. `Elision.Compatible` says when that cannot happen, and it
  is the precondition of `RemoveFields`. In the middle of a run, the driver
  ends with status `Panicked`, after the section header is written.

## Model

| member | source | states |
|---|---|---|
| `Elision.IsEmpty` | pkg/kubecfg/diff.go:108-124 | the empty values are exactly false, 0, "", the empty map and the empty list; null is not empty |
| `Elision.RemoveFields` | pkg/kubecfg/diff.go:126-135 | a scalar or null config gives back live unchanged; a map config yields a map whose keys are among the config's; a list config yields a list as long as live |
| `Elision.RemoveMapFields` | pkg/kubecfg/diff.go:137-150 | result keys are among the config's; live-only keys never appear; a shared key maps to the projection of the two values; a config-only key survives, with the config's value, iff that value is empty |
| `Elision.RemoveListFields` | pkg/kubecfg/diff.go:152-164 | the result has live's length; positions the config covers are projected; later live elements are kept verbatim; config elements past live's end are dropped |
| `Elision.Compatible` | pkg/kubecfg/diff.go:126-135 | the type assertions at lines 129 and 131 panic: a map config against a live non-map, or a list config against a live non-list, is incompatible; a scalar or null config is compatible with anything |
| `Elision.AgreesIsCompatible` | pkg/kubecfg/diff.go:126-135 | a live value that agrees with the config never makes the projection panic |
| `Elision.UnchangedIffAgrees` | pkg/kubecfg/diff.go:126-164 | the projection equals the config iff live agrees with it: every config key is in live with an agreeing value or is missing and empty, lists have equal length, and scalars are equal |
| `Elision.ProjectionOfSelf` | pkg/kubecfg/diff.go:126-164 | projecting a config onto itself never panics and gives the config back |
| `Elision.ProjectionIdempotent` | pkg/kubecfg/diff.go:126-164 | projecting an already projected live value again changes nothing |
| `Elision.ExtraLiveFieldPruned` | pkg/kubecfg/diff.go:137-149 | config {"a":"x"} against live {"a":"x","b":"y"} projects to {"a":"x"} |
| `Elision.MissingLiveFieldExamples` | pkg/kubecfg/diff.go:140-145 | against an empty live map, config {"a":""} keeps the key, while {"a":"x"} and {"a":null} lose it |
| `Elision.TrailingLiveElementsKept` | pkg/kubecfg/diff.go:152-164 | config ["p"] against live ["p","q","r"] projects to ["p","q","r"] |
| `Ordering.SortObjects` | pkg/kubecfg/diff.go:50 | the visiting order is a permutation of the input objects |
| `Ordering.SortObjectsSorted` | pkg/kubecfg/diff.go:50 | for a strict weak order, the visiting order is sorted and is a permutation of the input |
| `Diff.Header` | pkg/kubecfg/diff.go:70-71 | two chunks: "---", then "- live D" and "+ config D" on two lines, where D is the object's description |
| `Diff.HeaderInjective` | pkg/kubecfg/diff.go:70-71 | objects with different descriptions open their sections with different headers |
| `Diff.Compared` | pkg/kubecfg/diff.go:78-81 | in "subset" mode, the compared body has only config keys and equals the config iff live agrees with the config on every field the config specifies; in any other mode, it is the whole live body |
| `Diff.Step` | pkg/kubecfg/diff.go:53-97 | a client-construction error is returned as is, with nothing written; any fetch error other than not-found is returned as "Error fetching D: e", with nothing written; a found object whose compared body equals the config writes "D unchanged" and completes; a found, modified object writes its rendered diff as the third chunk, counts as a difference and completes, or, when the diff text cannot be produced, returns that error after the header; these cases cover every outcome, so an object stops the run only on a client error, a fetch error, a formatter error or the elision panic; an aborting object ends with a real error or a panic, never the sentinel; a completed object writes "---", the live/config header and one verdict line; an absent object writes "D doesn't exist on server" and counts as a difference; a found object counts as a difference iff the compared live body differs from the config; in subset mode mismatched shapes panic after the header |
| `Diff.Drive` | pkg/kubecfg/diff.go:52-103 | output already written is never taken back; nil is returned only if no difference was found |
| `Diff.DriveStatus` | pkg/kubecfg/diff.go:70-103 | without an error, the result is nil iff no object was absent or modified, else ErrDiffFound; with an error, the result is a real error or a panic, never ErrDiffFound |
| `Diff.DriveAllWritten` | pkg/kubecfg/diff.go:53-98 | without an error, the output is every object's section, in the visiting order |
| `Diff.DriveFailFast` | pkg/kubecfg/diff.go:57-93 | at the first erroring object, the output is the earlier objects' sections plus what that object wrote, and the status is its error |
| `Diff.LaterObjectsIgnored` | pkg/kubecfg/diff.go:57-93 | objects after the first erroring one do not affect the output or the status |
| `Diff.TranscriptSections` | pkg/kubecfg/diff.go:70-97 | each completed object contributes exactly three chunks, in order, the first two being "---" and its live/config header |
| `Diff.StepUnchangedIff` | pkg/kubecfg/diff.go:78-97 | a found object is reported unchanged iff live agrees with the config on every field the config specifies (subset mode), or equals it (other modes) |
| `Diff.DiffObject` | pkg/kubecfg/diff.go:54-97 | the loop body writes and returns exactly what the specification of one object says |
| `Diff.Run` | pkg/kubecfg/diff.go:49-104 | the output and status are those of the specification, run over the sorted objects |
| `Validate.GroupVersionString` | pkg/kubecfg/validate.go:47 | "group/version", or just the version when the group is empty |
| `Validate.IsKnown` | pkg/kubecfg/validate.go:50-52 | the returned checker accepts a group-version iff "group/version" (just the version, for the core group) is among the known strings |
| `Validate.NewGroupVersionChecker` | pkg/kubecfg/validate.go:39-53 | a discovery failure is returned as is; otherwise a group-version is known iff some served group-version prints the same string |
| `Validate.ObjectVerdict` | pkg/kubecfg/validate.go:63-86 | an object is skipped iff unknown group-versions are ignored and its group-version is unknown; a schema-fetch failure gives exactly one error; otherwise the errors are exactly those the schema check reports |
| `Validate.Run` | pkg/kubecfg/validate.go:55-94 | a discovery failure is returned before any object is examined; otherwise every object gets its verdict, and "Validation failed" is returned iff some object had an error |

## Left out

- The structural diff and ASCII formatter of gojsondiff are a foreign library. "Modified" is structural inequality of the compared trees. Rendering is a parameter that may fail, and coloring (`istty`) is not modelled.
- `utils.AlphabeticalOrder` is not part of this model. The comparator is a parameter.
- `Ordering.SortObjectsSorted`: for tied keys, the model fixes the insertion order. `sort.Sort` may produce any order of the tied objects.
- `utils.ResourceNameFor` and `utils.FqName` are not part of this model. The object description is a parameter.
- `utils.ClientForResource` and `client.Get` are combined into one parameter that answers client error, not found, fetch error, or the live body.
- `Diff.Run`: Go's `sort.Sort` reorders the caller's slice in place. The model sorts a copy, so the caller's order is left as it was.
- `Diff.Run`: a panic in the elision is modelled as the status `Panicked`. The Go program crashes instead. The section header is written before the panic, in both.
- `Object.content` stands for the whole unstructured map, including its metadata. The identity fields beside it are copies used for sorting and description.
- Logging (logrus) is left out. In the validate command, a `Verdict` per object stands for the skip warning and the per-error log lines.
- Discovery (`ServerGroups` with `ExtractGroupVersions`), `utils.NewSwaggerSchemaFor` and `schema.Validate` are parameters. `GroupVersion.String` follows the convention of the Kubernetes apimachinery package, which is not part of this model.
- Numbers are unbounded integers. The floating-point case of `isEmptyValue`, -0.0, NaN and the integer widths of Go's reflection kinds are not modelled.
- The `io.Writer` is modelled as the sequence of chunks written, one per `Fprint` call.
- cmd/diff.go, cmd/show.go and cmd/validate.go wire command-line flags. cmd/diff.go sets fields that this `DiffCmd` lacks (`NoErrorOnDiff`, `OmitSecrets`), so it belongs to a different version.
